/**
 Plain string operations the detection logic relies on: literal
 substring search and the `components(separatedBy:)` split of Foundation,
 which cuts a string at every non-overlapping occurrence of a separator,
 searching left to right.
 */
module Text {

  datatype Option<T> = None | Some(value: T)

  predicate StartsWith(s: string, prefix: string) {
    |prefix| <= |s| && s[..|prefix|] == prefix
  }

  /** `sep` occurs in `s` at index `i`. */
  predicate OccursAt(s: string, i: nat, sep: string) {
    i + |sep| <= |s| && s[i..i + |sep|] == sep
  }

  predicate Contains(s: string, sep: string) {
    exists i: nat | i <= |s| :: OccursAt(s, i, sep)
  }

  /** An occurrence in `s[1..]` is an occurrence in `s`, one index later. */
  lemma OccursAtTail(s: string, i: nat, sep: string)
    requires |s| > 0
    ensures OccursAt(s[1..], i, sep) <==> OccursAt(s, i + 1, sep)
  {
    if i + |sep| <= |s| - 1 {
      assert s[1..][i..i + |sep|] == s[i + 1..i + 1 + |sep|];
    }
  }

  /** A slice of a slice is a slice of the original. */
  lemma SliceOfSlice(s: string, lo: nat, hi: nat, a: nat, b: nat)
    requires lo <= hi <= |s| && a <= b <= hi - lo
    ensures s[lo..hi][a..b] == s[lo + a..lo + b]
  {
    forall k | 0 <= k < b - a ensures s[lo..hi][a..b][k] == s[lo + a..lo + b][k] {
      assert s[lo..hi][a..b][k] == s[lo..hi][a + k];
    }
  }

  /** An occurrence inside a prefix of `s` is an occurrence in `s`. */
  lemma OccursAtPrefix(s: string, n: nat, i: nat, sep: string)
    requires n <= |s|
    requires OccursAt(s[..n], i, sep)
    ensures OccursAt(s, i, sep) && i + |sep| <= n
  {
    assert s[..n][i..i + |sep|] == s[i..i + |sep|];
  }

  /** The index of the first occurrence of `sep` in `s`, if any. */
  function FirstIndex(s: string, sep: string): (r: Option<nat>)
    requires |sep| > 0
    ensures r.Some? ==> OccursAt(s, r.value, sep)
    ensures r.Some? ==> forall j: nat :: j < r.value ==> !OccursAt(s, j, sep)
    ensures r.None? <==> !Contains(s, sep)
    decreases |s|
  {
    if |s| < |sep| then None
    else if s[..|sep|] == sep then Some(0)
    else
      var rest := FirstIndex(s[1..], sep);
      assert forall j: nat :: OccursAt(s[1..], j, sep) <==> OccursAt(s, j + 1, sep) by {
        forall j: nat ensures OccursAt(s[1..], j, sep) <==> OccursAt(s, j + 1, sep) {
          OccursAtTail(s, j, sep);
        }
      }
      assert !OccursAt(s, 0, sep);
      assert forall j: nat :: OccursAt(s, j, sep) && j > 0 ==> OccursAt(s[1..], j - 1, sep);
      match rest
      case None => None
      case Some(i) => Some(i + 1)
  }

  /** The parts glued back together with `sep` between consecutive parts. */
  function Join(parts: seq<string>, sep: string): string {
    if |parts| == 0 then ""
    else if |parts| == 1 then parts[0]
    else parts[0] + sep + Join(parts[1..], sep)
  }

  /**
   Splits `s` at every occurrence of `sep`, found left to right without
   overlap, as Foundation's `components(separatedBy:)` does. There is always
   at least one part, the parts never contain `sep`, and joining them with
   `sep` gives back `s`. The first part is the text before the first
   occurrence of `sep`, or all of `s` when there is none.
   */
  function Components(s: string, sep: string): (r: seq<string>)
    requires |sep| > 0
    ensures |r| >= 1
    ensures |r| >= 2 <==> Contains(s, sep)
    ensures Join(r, sep) == s
    ensures forall k :: 0 <= k < |r| ==> !Contains(r[k], sep)
    ensures |r[0]| <= |s| && r[0] == s[..|r[0]|]
    ensures |r[0]| == |s| || OccursAt(s, |r[0]|, sep)
    ensures forall j: nat :: j < |r[0]| ==> !OccursAt(s, j, sep)
    decreases |s|
  {
    match FirstIndex(s, sep)
    case None => [s]
    case Some(i) =>
      var head := s[..i];
      var tail := Components(s[i + |sep|..], sep);
      assert !Contains(head, sep) by {
        forall j: nat | OccursAt(head, j, sep) ensures false {
          OccursAtPrefix(s, i, j, sep);
        }
      }
      assert s == head + sep + s[i + |sep|..];
      assert ([head] + tail)[1..] == tail;
      [head] + tail
  }
}
