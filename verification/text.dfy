/** String helpers with the meaning of the JavaScript string methods the
    views use: `toLowerCase` (ASCII letters only), `includes`,
    `substring(0, n)`, `startsWith`, and `Array.prototype.join` with its
    inverse, splitting on a separator. */
module Text {
  import opened Seqs

  function LowerChar(c: char): char
  {
    if 'A' <= c <= 'Z' then (c as int - 'A' as int + 'a' as int) as char else c
  }

  /** `toLowerCase`, restricted to the ASCII letters. */
  function Lower(s: string): (r: string)
    ensures |r| == |s|
    ensures forall i :: 0 <= i < |s| ==> r[i] == LowerChar(s[i])
  {
    seq(|s|, i requires 0 <= i < |s| => LowerChar(s[i]))
  }

  /** True iff `sep` occurs in `s` starting at index `i`. */
  predicate OccursAt(s: string, sep: string, i: nat)
  {
    i + |sep| <= |s| && s[i..i + |sep|] == sep
  }

  /** The first index at or after `from` where `sep` occurs in `s`
      (`indexOf(sep, from)`). */
  function IndexOf(s: string, sep: string, from: nat): (r: Option<nat>)
    ensures r.Some? ==> from <= r.value && OccursAt(s, sep, r.value)
    ensures r.Some? ==> forall i :: from <= i < r.value ==> !OccursAt(s, sep, i)
    ensures r.None? <==> forall i :: from <= i ==> !OccursAt(s, sep, i)
    decreases |s| - from
  {
    if from + |sep| > |s| then None
    else if OccursAt(s, sep, from) then Some(from)
    else IndexOf(s, sep, from + 1)
  }

  /** `s.includes(q)`: some window of `s` equals `q`. */
  function Includes(s: string, q: string): (b: bool)
    ensures b <==> exists i: nat :: OccursAt(s, q, i)
  {
    IndexOf(s, q, 0).Some?
  }

  /** `s.startsWith(prefix)`; Dafny's `<=` on sequences is the prefix test. */
  function StartsWith(s: string, prefix: string): (b: bool)
    ensures b <==> |prefix| <= |s| && forall i :: 0 <= i < |prefix| ==> s[i] == prefix[i]
  {
    prefix <= s
  }

  /** `s.substring(0, n)`: the first `n` characters, or all of a shorter `s`. */
  function Prefix(s: string, n: nat): (r: string)
    ensures r <= s
    ensures |r| == Min(n, |s|)
  {
    if |s| <= n then s else s[..n]
  }

  /** `parts.join(sep)`. */
  function Join(parts: seq<string>, sep: string): string
  {
    if |parts| == 0 then ""
    else if |parts| == 1 then parts[0]
    else parts[0] + sep + Join(parts[1..], sep)
  }

  /** `s.split(sep)` for a non-empty separator. */
  function Split(s: string, sep: string): (r: seq<string>)
    requires |sep| > 0
    ensures |r| >= 1
    ensures forall k :: 0 <= k < |r| - 1 ==> !Includes(r[k], sep)
    decreases |s|
  {
    match IndexOf(s, sep, 0)
    case None => [s]
    case Some(i) =>
      var head := s[..i];
      assert IndexOf(head, sep, 0).None? by {
        forall j: nat | OccursAt(head, sep, j)
          ensures false
        {
          assert s[j..j + |sep|] == head[j..j + |sep|];
          assert OccursAt(s, sep, j);
        }
      }
      [head] + Split(s[i + |sep|..], sep)
  }

  /** A string that lacks the separator's first character holds no
      occurrence of the separator. */
  lemma {:induction false} NoOccurrence(p: string, sep: string, from: nat)
    requires |sep| > 0 && sep[0] !in p
    ensures IndexOf(p, sep, from) == None
    decreases |p| - from
  {
    if from + |sep| <= |p| {
      assert p[from..from + |sep|][0] == p[from];
      assert p[from] in p;
      NoOccurrence(p, sep, from + 1);
    }
  }

  /** In `p + sep + rest`, the first occurrence of `sep` is right after `p`
      when `p` lacks the separator's first character. */
  lemma {:induction false} FirstOccurrence(p: string, sep: string, rest: string, from: nat)
    requires |sep| > 0 && sep[0] !in p
    requires from <= |p|
    ensures IndexOf(p + sep + rest, sep, from) == Some(|p|)
    decreases |p| - from
  {
    var s := p + sep + rest;
    if from < |p| {
      assert s[from..from + |sep|][0] == p[from];
      assert p[from] in p;
      FirstOccurrence(p, sep, rest, from + 1);
    } else {
      assert s[from..from + |sep|] == sep;
    }
  }

  /** Splitting `p + sep + rest` cuts off exactly `p`. */
  lemma SplitStep(p: string, sep: string, rest: string)
    requires |sep| > 0 && sep[0] !in p
    ensures Split(p + sep + rest, sep) == [p] + Split(rest, sep)
  {
    var s := p + sep + rest;
    FirstOccurrence(p, sep, rest, 0);
    assert s[..|p|] == p;
    assert s[|p| + |sep|..] == rest;
  }

  /** Splitting a join recovers the parts, provided no part holds the
      separator's first character. */
  lemma {:induction false} SplitJoin(parts: seq<string>, sep: string)
    requires |sep| > 0 && |parts| >= 1
    requires forall k :: 0 <= k < |parts| ==> sep[0] !in parts[k]
    ensures Split(Join(parts, sep), sep) == parts
  {
    if |parts| == 1 {
      NoOccurrence(parts[0], sep, 0);
    } else {
      SplitStep(parts[0], sep, Join(parts[1..], sep));
      SplitJoin(parts[1..], sep);
      assert parts == [parts[0]] + parts[1..];
    }
  }
}
