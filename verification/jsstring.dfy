/**
  The few `String.prototype` operations the case converters call, other than
  the case maps and the global regex substitutions: `charAt`, `slice`,
  `indexOf`, `replace` with a string pattern (first occurrence only) and
  `replace(/^./, ...)`. A string is a sequence of characters; UTF-16 code
  units are not modelled.
 */
module JsString {
  import opened Ascii

  datatype Option<+T> = None | Some(value: T)

  /** `s.charAt(i)`: a one-character string, or `""` when `i` is past the end. */
  function CharAt(s: string, i: nat): (r: string)
    ensures |r| <= 1
    ensures |r| == 1 <==> i < |s|
    ensures i < |s| ==> r[0] == s[i]
  {
    if i < |s| then [s[i]] else ""
  }

  /** `s.slice(i)` for a non-negative start: the suffix from `i`, or `""` past the end. */
  function Slice(s: string, i: nat): (r: string)
    ensures |r| == if i <= |s| then |s| - i else 0
    ensures forall k :: 0 <= k < |r| ==> r[k] == s[i + k]
  {
    if i <= |s| then s[i..] else ""
  }

  /** `pat` occurs in `s` starting at index `k`. */
  predicate OccursAt(pat: string, s: string, k: nat) {
    k + |pat| <= |s| && s[k..k + |pat|] == pat
  }

  lemma OccursAtTail(pat: string, s: string, k: nat)
    requires |s| > 0
    ensures OccursAt(pat, s[1..], k) <==> OccursAt(pat, s, k + 1)
  {
    if k + 1 + |pat| <= |s| {
      assert s[1..][k..k + |pat|] == s[k + 1..k + 1 + |pat|];
    }
  }

  /** `s.indexOf(pat)`: the first index at which `pat` occurs, if any. */
  function IndexOf(s: string, pat: string): (r: Option<nat>)
    ensures r.Some? ==> OccursAt(pat, s, r.value)
    ensures r.Some? ==> forall k: nat :: k < r.value ==> !OccursAt(pat, s, k)
    ensures r.None? ==> forall k: nat :: k <= |s| ==> !OccursAt(pat, s, k)
    decreases |s|
  {
    if OccursAt(pat, s, 0) then Some(0)
    else if |s| == 0 then None
    else
      var tail := IndexOf(s[1..], pat);
      assert forall k: nat :: 0 < k ==> (OccursAt(pat, s, k) <==> OccursAt(pat, s[1..], k - 1)) by {
        forall k: nat | 0 < k ensures OccursAt(pat, s, k) <==> OccursAt(pat, s[1..], k - 1) {
          OccursAtTail(pat, s, k - 1);
        }
      }
      match tail
      case None => None
      case Some(k) => Some(k + 1)
  }

  /**
    `s.replace(pat, rep)` with a string pattern: only the first occurrence
    is replaced. `rep` is taken literally, which is exact whenever it holds no
    `$` followed by another character (a one-character `rep` never does).
   */
  function ReplaceFirst(s: string, pat: string, rep: string): (r: string)
    ensures IndexOf(s, pat).None? ==> r == s
    ensures IndexOf(s, pat).Some? ==> |r| == |s| - |pat| + |rep|
    ensures forall k: nat :: OccursAt(pat, s, k) ==>
      var j := IndexOf(s, pat).value;
      j <= k && r == s[..j] + rep + s[j + |pat|..]
  {
    match IndexOf(s, pat)
    case None => s
    case Some(j) => s[..j] + rep + s[j + |pat|..]
  }

  /**
    `s.replace(/^./, m => m.toUpperCase())`: upper-cases the first character
    unless it is a line terminator, which the regex `.` does not match.
   */
  function CapitalizeFirst(s: string): (r: string)
    ensures |r| == |s|
    ensures |s| > 0 ==> r[0] == Upper(s[0])
    ensures forall k :: 0 < k < |s| ==> r[k] == s[k]
  {
    if |s| > 0 && !IsLineTerminator(s[0]) then [Upper(s[0])] + s[1..] else s
  }
}
