/**
  The global regex substitutions the case converters are built from, each
  written as the left-to-right scan that `String.prototype.replace` with a
  `g` flag performs: after a match the scan resumes behind it, so matches
  never overlap.
 */
module Substitution {
  import opened Ascii

  /** Number of occurrences of `c` in `s`. */
  function Count(c: char, s: string): (n: nat)
    ensures n <= |s|
  {
    if |s| == 0 then 0
    else (if s[0] == c then 1 else 0) + Count(c, s[1..])
  }

  lemma CountAppend(c: char, s: string, t: string)
    ensures Count(c, s + t) == Count(c, s) + Count(c, t)
  {
    if |s| == 0 {
      assert s + t == t;
    } else {
      assert (s + t)[0] == s[0];
      assert (s + t)[1..] == s[1..] + t;
      CountAppend(c, s[1..], t);
    }
  }

  /** `s` with every `c` deleted. */
  function Remove(c: char, s: string): (r: string)
    ensures |r| == |s| - Count(c, s)
    ensures c !in r
  {
    if |s| == 0 then []
    else (if s[0] == c then [] else [s[0]]) + Remove(c, s[1..])
  }

  lemma RemoveAppend(c: char, s: string, t: string)
    ensures Remove(c, s + t) == Remove(c, s) + Remove(c, t)
  {
    if |s| == 0 {
      assert s + t == t;
    } else {
      assert (s + t)[0] == s[0];
      assert (s + t)[1..] == s[1..] + t;
      RemoveAppend(c, s[1..], t);
    }
  }

  // ---------------------------------------------------------------------
  // Separator insertion: s.replace(/[A-Z]/g, l => sep + l.toLowerCase())
  // ---------------------------------------------------------------------

  /** Each `A`-`Z` becomes `sep` followed by the lower-cased letter; all else is copied. */
  function InsertSep(sep: char, s: string): (r: string)
    ensures |r| == |s| + CountUpper(s)
    ensures !IsUpper(sep) ==> NoUpper(r)
    ensures !IsLetter(sep) ==> Count(sep, r) == Count(sep, s) + CountUpper(s)
    ensures |s| > 0 && IsUpper(s[0]) ==> r[0] == sep && r[1] == Lower(s[0])
    ensures |s| > 0 && !IsUpper(s[0]) ==> r[0] == s[0]
  {
    if |s| == 0 then []
    else
      var head := if IsUpper(s[0]) then [sep, Lower(s[0])] else [s[0]];
      CountAppend(sep, head, InsertSep(sep, s[1..]));
      head + InsertSep(sep, s[1..])
  }

  /** Each `A`-`Z` gets `sep` in front of it and keeps its case: `s.replace(/([A-Z])/g, sep + '$1')`. */
  function InsertBefore(sep: char, s: string): (r: string)
    ensures |r| == |s| + CountUpper(s)
    ensures |s| > 0 && IsUpper(s[0]) ==> r[0] == sep
    ensures |s| > 0 && !IsUpper(s[0]) ==> r[0] == s[0]
  {
    if |s| == 0 then []
    else
      var head := if IsUpper(s[0]) then [sep, s[0]] else [s[0]];
      head + InsertBefore(sep, s[1..])
  }

  /**
    The index at which `s[k]` lands once a separator has been put in front of
    every capital of `s`: `k` plus the number of capitals in `s[..k+1]`.
   */
  function Landing(s: string, k: nat): (p: nat)
    requires k < |s|
    ensures k <= p <= k + 1 + k
    ensures IsUpper(s[k]) ==> k < p
  {
    assert s[..k + 1][k] == s[k];
    CountUpperPrefix(s[..k + 1]);
    k + CountUpper(s[..k + 1])
  }

  /** A string whose last character is a capital counts at least one capital. */
  lemma CountUpperPrefix(s: string)
    requires |s| > 0
    ensures IsUpper(s[|s| - 1]) ==> CountUpper(s) > 0
  {
  }

  /** Past the head, the landing index in `s` is the landing index in `s[1..]`, shifted by the head's width. */
  lemma LandingStep(s: string, k: nat)
    requires 0 < k < |s|
    ensures Landing(s, k) == Landing(s[1..], k - 1) + 1 + (if IsUpper(s[0]) then 1 else 0)
  {
    var p := s[..k + 1];
    assert p[0] == s[0];
    assert p[1..] == s[1..][..k];
  }

  /** InsertBefore puts every input character at its landing index. */
  lemma {:induction false} InsertBeforePlaces(sep: char, s: string)
    ensures var r := InsertBefore(sep, s);
            forall k {:trigger Landing(s, k)} :: 0 <= k < |s| ==> Landing(s, k) < |r| && r[Landing(s, k)] == s[k]
  {
    if |s| > 0 {
      InsertBeforePlaces(sep, s[1..]);
      var rest := InsertBefore(sep, s[1..]);
      var head := if IsUpper(s[0]) then [sep, s[0]] else [s[0]];
      var r := head + rest;
      forall k | 0 <= k < |s|
        ensures Landing(s, k) < |r| && r[Landing(s, k)] == s[k]
      {
        if k == 0 {
          assert s[..1] == [s[0]];
          assert [s[0]][1..] == [];
        } else {
          LandingStep(s, k);
          var q := Landing(s[1..], k - 1);
          assert r[|head| + q] == rest[q];
        }
      }
    }
  }

  /** InsertBefore puts the separator right before the landing index of every capital. */
  lemma {:induction false} InsertBeforeMarksPlaces(sep: char, s: string)
    ensures var r := InsertBefore(sep, s);
            forall k {:trigger Landing(s, k)} :: 0 <= k < |s| && IsUpper(s[k]) ==> Landing(s, k) - 1 < |r| && r[Landing(s, k) - 1] == sep
  {
    if |s| > 0 {
      InsertBeforeMarksPlaces(sep, s[1..]);
      var rest := InsertBefore(sep, s[1..]);
      var head := if IsUpper(s[0]) then [sep, s[0]] else [s[0]];
      var r := head + rest;
      forall k | 0 <= k < |s| && IsUpper(s[k])
        ensures Landing(s, k) - 1 < |r| && r[Landing(s, k) - 1] == sep
      {
        if k == 0 {
          assert s[..1] == [s[0]];
          assert [s[0]][1..] == [];
        } else {
          LandingStep(s, k);
          var q := Landing(s[1..], k - 1);
          assert r[|head| + q - 1] == rest[q - 1];
        }
      }
    }
  }

  /** Every capital in the output of InsertBefore has the separator right before it. */
  predicate CapitalsMarked(sep: char, r: string) {
    forall i :: 0 <= i < |r| && IsUpper(r[i]) ==> 0 < i && r[i - 1] == sep
  }

  lemma {:induction false} InsertBeforeMarksCapitals(sep: char, s: string)
    requires !IsUpper(sep)
    ensures CapitalsMarked(sep, InsertBefore(sep, s))
  {
    if |s| > 0 {
      InsertBeforeMarksCapitals(sep, s[1..]);
      var rest := InsertBefore(sep, s[1..]);
      var head := if IsUpper(s[0]) then [sep, s[0]] else [s[0]];
      var r := head + rest;
      forall i | 0 <= i < |r| && IsUpper(r[i])
        ensures 0 < i && r[i - 1] == sep
      {
        if i >= |head| {
          assert r[i] == rest[i - |head|];
          if i > |head| {
            assert r[i - 1] == rest[i - |head| - 1];
          }
        }
      }
    }
  }

  /** InsertBefore adds no capitals and loses none. */
  lemma {:induction false} InsertBeforeCountUpper(sep: char, s: string)
    requires !IsUpper(sep)
    ensures CountUpper(InsertBefore(sep, s)) == CountUpper(s)
  {
    if |s| > 0 {
      InsertBeforeCountUpper(sep, s[1..]);
      var head := if IsUpper(s[0]) then [sep, s[0]] else [s[0]];
      CountUpperAppend(head, InsertBefore(sep, s[1..]));
      if IsUpper(s[0]) {
        assert head[1..] == [s[0]];
      }
    }
  }

  /** Separator insertion works character by character, so it distributes over concatenation. */
  lemma {:induction false} InsertSepAppend(sep: char, s: string, t: string)
    ensures InsertSep(sep, s + t) == InsertSep(sep, s) + InsertSep(sep, t)
  {
    if |s| == 0 {
      assert s + t == t;
    } else {
      assert (s + t)[0] == s[0];
      assert (s + t)[1..] == s[1..] + t;
      InsertSepAppend(sep, s[1..], t);
    }
  }

  lemma {:induction false} InsertBeforeAppend(sep: char, s: string, t: string)
    ensures InsertBefore(sep, s + t) == InsertBefore(sep, s) + InsertBefore(sep, t)
  {
    if |s| == 0 {
      assert s + t == t;
    } else {
      assert (s + t)[0] == s[0];
      assert (s + t)[1..] == s[1..] + t;
      InsertBeforeAppend(sep, s[1..], t);
    }
  }

  /** Text without capitals passes through both insertions unchanged. */
  lemma {:induction false} InsertSepNoUpper(sep: char, s: string)
    requires NoUpper(s)
    ensures InsertSep(sep, s) == s
  {
    if |s| > 0 {
      assert NoUpper(s[1..]);
      InsertSepNoUpper(sep, s[1..]);
      assert s == [s[0]] + s[1..];
    }
  }

  lemma {:induction false} InsertBeforeNoUpper(sep: char, s: string)
    requires NoUpper(s)
    ensures InsertBefore(sep, s) == s
  {
    if |s| > 0 {
      assert NoUpper(s[1..]);
      InsertBeforeNoUpper(sep, s[1..]);
      assert s == [s[0]] + s[1..];
    }
  }

  /** Deleting the inserted separators gives the input back, when it held none. */
  lemma {:induction false} RemoveInsertBefore(sep: char, s: string)
    requires sep !in s
    ensures Remove(sep, InsertBefore(sep, s)) == s
  {
    if |s| > 0 {
      RemoveInsertBefore(sep, s[1..]);
      var head := if IsUpper(s[0]) then [sep, s[0]] else [s[0]];
      RemoveAppend(sep, head, InsertBefore(sep, s[1..]));
      assert Remove(sep, head) == [s[0]] by {
        if IsUpper(s[0]) {
          assert head[1..] == [s[0]];
        }
      }
      assert s == [s[0]] + s[1..];
    }
  }

  /** Inserting `sep` + lower-case letter is inserting `sep` and then lower-casing everything. */
  lemma {:induction false} InsertSepIsLoweredInsertBefore(sep: char, s: string)
    requires !IsUpper(sep)
    ensures InsertSep(sep, s) == LowerStr(InsertBefore(sep, s))
  {
    if |s| > 0 {
      InsertSepIsLoweredInsertBefore(sep, s[1..]);
      var rest := InsertBefore(sep, s[1..]);
      if IsUpper(s[0]) {
        CaseMapsAppend([sep, s[0]], rest);
      } else {
        CaseMapsAppend([s[0]], rest);
      }
    }
  }

  /**
    InsertSep puts every input character, lower-cased, at its landing index,
    and the separator right before every capital.
   */
  lemma InsertSepPlaces(sep: char, s: string)
    requires !IsUpper(sep)
    ensures var r := InsertSep(sep, s);
            forall k {:trigger Landing(s, k)} :: 0 <= k < |s| ==> Landing(s, k) < |r| && r[Landing(s, k)] == Lower(s[k])
    ensures var r := InsertSep(sep, s);
            forall k {:trigger Landing(s, k)} :: 0 <= k < |s| && IsUpper(s[k]) ==> Landing(s, k) - 1 < |r| && r[Landing(s, k) - 1] == sep
  {
    InsertSepIsLoweredInsertBefore(sep, s);
    InsertBeforePlaces(sep, s);
    InsertBeforeMarksPlaces(sep, s);
  }

  // ---------------------------------------------------------------------
  // Separator removal: s.toLowerCase().replace(/sep./g, m => m[1].toUpperCase())
  // ---------------------------------------------------------------------

  /** A match of `sep.` starts at the head of `t`: a separator and a following non-line-terminator. */
  predicate MatchAtHead(sep: char, t: string) {
    |t| >= 2 && t[0] == sep && !IsLineTerminator(t[1])
  }

  /** Number of non-overlapping matches of `sep.` found by a left-to-right scan of `t`. */
  function Matches(sep: char, t: string): (n: nat)
    ensures 2 * n <= |t|
  {
    if |t| == 0 then 0
    else if MatchAtHead(sep, t) then
      assert t[1..][1..] == t[2..];
      1 + Matches(sep, t[2..])
    else Matches(sep, t[1..])
  }

  /** Each match of `sep.` is replaced by the upper-cased second character; all else is copied. */
  function Join(sep: char, t: string): (r: string)
    ensures |r| == |t| - Matches(sep, t)
    ensures |t| > 0 && !MatchAtHead(sep, t) ==> r[0] == t[0]
  {
    if |t| == 0 then []
    else if MatchAtHead(sep, t) then [Upper(t[1])] + Join(sep, t[2..])
    else [t[0]] + Join(sep, t[1..])
  }

  /** Text before the first separator is copied unchanged by the scan. */
  lemma {:induction false} JoinAppend(sep: char, s: string, t: string)
    requires sep !in s
    ensures Join(sep, s + t) == s + Join(sep, t)
  {
    if |s| == 0 {
      assert s + t == t;
    } else {
      assert (s + t)[1..] == s[1..] + t;
      JoinAppend(sep, s[1..], t);
    }
  }

  /** Text without a separator is copied unchanged. */
  lemma JoinNoSep(sep: char, t: string)
    requires sep !in t
    ensures Join(sep, t) == t
  {
    JoinAppend(sep, t, []);
    assert t + [] == t;
  }

  /**
    Whether the scan finds a match of `sep.` at index `i` of `t`: a separator
    followed by a non-line-terminator starts there, and index `i` is not the
    second half of a match found at `i - 1`.
   */
  predicate MatchStart(sep: char, t: string, i: nat)
    requires i < |t|
    decreases i
  {
    && i + 1 < |t| && t[i] == sep && !IsLineTerminator(t[i + 1])
    && !(i > 0 && MatchStart(sep, t, i - 1))
  }

  /** Number of matches the scan finds before index `i` of `t`. */
  function MatchesBefore(sep: char, t: string, i: nat): (n: nat)
    requires i <= |t|
    ensures n <= i
  {
    if i == 0 then 0
    else MatchesBefore(sep, t, i - 1) + (if MatchStart(sep, t, i - 1) then 1 else 0)
  }

  /** Past an index that starts no match, the scan of `t` goes on as a fresh scan of the rest. */
  lemma {:induction false} MatchStartShift(sep: char, t: string, d: nat, i: nat)
    requires 0 < d <= i < |t|
    requires !MatchStart(sep, t, d - 1)
    ensures MatchStart(sep, t, i) == MatchStart(sep, t[d..], i - d)
    decreases i
  {
    if i > d {
      MatchStartShift(sep, t, d, i - 1);
    }
  }

  lemma {:induction false} MatchesBeforeShift(sep: char, t: string, d: nat, i: nat)
    requires 0 < d <= i <= |t|
    requires !MatchStart(sep, t, d - 1)
    ensures MatchesBefore(sep, t, i) == MatchesBefore(sep, t, d) + MatchesBefore(sep, t[d..], i - d)
    decreases i
  {
    if i > d {
      MatchesBeforeShift(sep, t, d, i - 1);
      MatchStartShift(sep, t, d, i - 1);
    }
  }

  /** The scan's match count is the number of indices where a match starts. */
  lemma {:induction false} MatchesCountsMatchStarts(sep: char, t: string)
    ensures Matches(sep, t) == MatchesBefore(sep, t, |t|)
    decreases |t|
  {
    if |t| > 0 {
      if MatchAtHead(sep, t) {
        assert MatchStart(sep, t, 0);
        assert MatchesBefore(sep, t, 2) == 1;
        MatchesCountsMatchStarts(sep, t[2..]);
        if |t| > 2 {
          MatchesBeforeShift(sep, t, 2, |t|);
        }
      } else {
        assert !MatchStart(sep, t, 0);
        MatchesCountsMatchStarts(sep, t[1..]);
        MatchesBeforeShift(sep, t, 1, |t|);
      }
    }
  }

  /** Where one character that starts no match ends up in the output of Join, and in which case. */
  lemma {:induction false} JoinPlacesAt(sep: char, t: string, i: nat)
    requires i < |t| && !MatchStart(sep, t, i)
    ensures var r := Join(sep, t);
            && i - MatchesBefore(sep, t, i) < |r|
            && r[i - MatchesBefore(sep, t, i)] == (if 0 < i && MatchStart(sep, t, i - 1) then Upper(t[i]) else t[i])
    decreases |t|
  {
    var r := Join(sep, t);
    var d := if MatchAtHead(sep, t) then 2 else 1;
    assert MatchStart(sep, t, 0) == MatchAtHead(sep, t);
    if i >= d {
      var u, j := t[d..], i - d;
      assert d == 2 ==> MatchesBefore(sep, t, 2) == 1;
      MatchesBeforeShift(sep, t, d, i);
      MatchStartShift(sep, t, d, i);
      if i > d {
        MatchStartShift(sep, t, d, i - 1);
      }
      JoinPlacesAt(sep, u, j);
      assert u[j] == t[i];
      assert r[i - MatchesBefore(sep, t, i)] == Join(sep, u)[j - MatchesBefore(sep, u, j)];
    }
  }

  /**
    Join keeps every character that starts no match, moved left by the
    number of matches before it, and upper-cases exactly the characters
    that end a match.
   */
  lemma JoinPlaces(sep: char, t: string)
    ensures var r := Join(sep, t);
            forall i {:trigger MatchesBefore(sep, t, i)} :: 0 <= i < |t| && !MatchStart(sep, t, i) ==>
              && i - MatchesBefore(sep, t, i) < |r|
              && r[i - MatchesBefore(sep, t, i)] == (if 0 < i && MatchStart(sep, t, i - 1) then Upper(t[i]) else t[i])
  {
    forall i | 0 <= i < |t| && !MatchStart(sep, t, i) {
      JoinPlacesAt(sep, t, i);
    }
  }

  /** The whole separator-removal conversion: lower-case, then join. */
  function JoinSep(sep: char, s: string): (r: string)
    ensures |r| == |s| - Matches(sep, LowerStr(s))
  {
    Join(sep, LowerStr(s))
  }

  /** An input without the separator is only lower-cased. */
  lemma JoinSepNoSep(sep: char, s: string)
    requires !IsLower(sep)
    ensures sep !in s ==> JoinSep(sep, s) == LowerStr(s)
  {
    if sep !in s {
      var t := LowerStr(s);
      JoinNoSep(sep, t);
    }
  }

  /** Lower-casing moves no match when the separator is not a letter. */
  lemma {:induction false} MatchStartLower(sep: char, s: string, i: nat)
    requires !IsLetter(sep) && i < |s|
    ensures MatchStart(sep, LowerStr(s), i) == MatchStart(sep, s, i)
    decreases i
  {
    if i > 0 {
      MatchStartLower(sep, s, i - 1);
    }
  }

  lemma {:induction false} MatchesBeforeLower(sep: char, s: string, i: nat)
    requires !IsLetter(sep) && i <= |s|
    ensures MatchesBefore(sep, LowerStr(s), i) == MatchesBefore(sep, s, i)
    decreases i
  {
    if i > 0 {
      MatchesBeforeLower(sep, s, i - 1);
      MatchStartLower(sep, s, i - 1);
    }
  }

  /** Where one input character that starts no match ends up after lower-casing and joining, and in which case. */
  lemma JoinSepPlacesAt(sep: char, s: string, i: nat)
    requires !IsLetter(sep) && i < |s| && !MatchStart(sep, s, i)
    ensures var r := JoinSep(sep, s);
            && i - MatchesBefore(sep, s, i) < |r|
            && r[i - MatchesBefore(sep, s, i)] == (if 0 < i && MatchStart(sep, s, i - 1) then Upper(s[i]) else Lower(s[i]))
  {
    var t := LowerStr(s);
    MatchStartLower(sep, s, i);
    MatchesBeforeLower(sep, s, i);
    if i > 0 {
      MatchStartLower(sep, s, i - 1);
    }
    CaseInverse(s[i]);
    JoinPlacesAt(sep, t, i);
  }

  /**
    Lower-case, then join, stated on the input: the output loses one
    character per match, and each character that starts no match comes out
    upper-cased if it ends one and lower-cased otherwise.
   */
  lemma JoinSepPlaces(sep: char, s: string)
    requires !IsLetter(sep)
    ensures |JoinSep(sep, s)| == |s| - MatchesBefore(sep, s, |s|)
    ensures var r := JoinSep(sep, s);
            forall i {:trigger MatchesBefore(sep, s, i)} :: 0 <= i < |s| && !MatchStart(sep, s, i) ==>
              && i - MatchesBefore(sep, s, i) < |r|
              && r[i - MatchesBefore(sep, s, i)] == (if 0 < i && MatchStart(sep, s, i - 1) then Upper(s[i]) else Lower(s[i]))
  {
    MatchesCountsMatchStarts(sep, LowerStr(s));
    MatchesBeforeLower(sep, s, |s|);
    forall i | 0 <= i < |s| && !MatchStart(sep, s, i) {
      JoinSepPlacesAt(sep, s, i);
    }
  }

  /** Round trip: removing the separators that InsertSep put in restores the input. */
  lemma {:induction false} JoinInsertSep(sep: char, s: string)
    requires sep !in s
    ensures Join(sep, InsertSep(sep, s)) == s
  {
    if |s| > 0 {
      JoinInsertSep(sep, s[1..]);
      var rest := InsertSep(sep, s[1..]);
      if IsUpper(s[0]) {
        var t := [sep, Lower(s[0])] + rest;
        assert MatchAtHead(sep, t);
        assert t[2..] == rest;
        CaseInverse(s[0]);
      } else {
        var t := [s[0]] + rest;
        assert !MatchAtHead(sep, t);
        assert t[1..] == rest;
      }
    }
  }

  lemma JoinSepInsertSep(sep: char, s: string)
    requires !IsUpper(sep) && sep !in s
    ensures JoinSep(sep, InsertSep(sep, s)) == s
  {
    LowerStrFixedPoint(InsertSep(sep, s));
    JoinInsertSep(sep, s);
  }

  /**
    A string in canonical separated form: no upper-case letter, and every
    separator directly followed by a lower-case letter.
   */
  predicate Separated(sep: char, t: string) {
    && NoUpper(t)
    && forall i :: 0 <= i < |t| && t[i] == sep ==> i + 1 < |t| && IsLower(t[i + 1])
  }

  /** Every suffix of a canonical separated string is canonical. */
  lemma SeparatedSuffix(sep: char, t: string, k: nat)
    requires Separated(sep, t) && k <= |t|
    ensures Separated(sep, t[k..])
  {
    var u := t[k..];
    forall i | 0 <= i < |u| && u[i] == sep
      ensures i + 1 < |u| && IsLower(u[i + 1])
    {
      assert t[i + k] == sep;
    }
  }

  /** Inverse round trip: on canonical separated text, inserting undoes joining. */
  lemma {:induction false} InsertSepJoin(sep: char, t: string)
    requires Separated(sep, t)
    ensures InsertSep(sep, Join(sep, t)) == t
    decreases |t|
  {
    if |t| > 0 {
      if t[0] == sep {
        assert MatchAtHead(sep, t);
        SeparatedSuffix(sep, t, 2);
        InsertSepJoin(sep, t[2..]);
        var rest := Join(sep, t[2..]);
        var r := [Upper(t[1])] + rest;
        assert Join(sep, t) == r;
        assert r[1..] == rest;
        CaseInverse(t[1]);
        assert InsertSep(sep, r) == [sep, t[1]] + InsertSep(sep, rest);
        assert t == [sep, t[1]] + t[2..];
      } else {
        assert !MatchAtHead(sep, t);
        SeparatedSuffix(sep, t, 1);
        InsertSepJoin(sep, t[1..]);
        var rest := Join(sep, t[1..]);
        var r := [t[0]] + rest;
        assert Join(sep, t) == r;
        assert r[1..] == rest;
        assert InsertSep(sep, r) == [t[0]] + InsertSep(sep, rest);
        assert t == [t[0]] + t[1..];
      }
    }
  }

  lemma InsertSepJoinSep(sep: char, t: string)
    requires Separated(sep, t)
    ensures InsertSep(sep, JoinSep(sep, t)) == t
  {
    LowerStrFixedPoint(t);
    InsertSepJoin(sep, t);
  }

  /**
    A separator at the very end is never removed: either nothing follows it,
    or it is the second character of a match and comes back upper-cased,
    which leaves a non-letter separator unchanged.
   */
  lemma {:induction false} JoinKeepsTrailingSep(sep: char, t: string)
    requires !IsLower(sep)
    requires |t| > 0 && t[|t| - 1] == sep
    ensures var r := Join(sep, t); |r| > 0 && r[|r| - 1] == sep
    decreases |t|
  {
    if MatchAtHead(sep, t) {
      if |t| == 2 {
        assert Join(sep, t[2..]) == [];
      } else {
        JoinKeepsTrailingSep(sep, t[2..]);
      }
    } else if |t| > 1 {
      JoinKeepsTrailingSep(sep, t[1..]);
    }
  }
}
