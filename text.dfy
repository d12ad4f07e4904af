/** Literal substring replacement as Python's `str.replace(old, new)` performs it:
    every occurrence of `old`, found left to right and without overlap, is replaced
    by `new`; an empty `old` matches before every character and at the end. */
module Text {

  /** `t` occurs in `s` starting at index `i`. */
  predicate OccursAt(s: string, t: string, i: nat)
  {
    i + |t| <= |s| && s[i..i + |t|] == t
  }

  /** Python's `t in s`. */
  predicate Contains(s: string, t: string)
  {
    exists i: nat | i <= |s| :: OccursAt(s, t, i)
  }

  /** `s.replace(t, v)`. */
  function ReplaceAll(s: string, t: string, v: string): string
    decreases |s|
  {
    if t == [] then
      (if s == [] then v else v + [s[0]] + ReplaceAll(s[1..], t, v))
    else if |s| < |t| then s
    else if s[..|t|] == t then v + ReplaceAll(s[|t|..], t, v)
    else [s[0]] + ReplaceAll(s[1..], t, v)
  }

  /** `s.count(t)`: the number of occurrences `ReplaceAll` rewrites. */
  function Count(s: string, t: string): nat
    decreases |s|
  {
    if t == [] then |s| + 1
    else if |s| < |t| then 0
    else if s[..|t|] == t then 1 + Count(s[|t|..], t)
    else Count(s[1..], t)
  }

  /** An occurrence in the tail of `s` is an occurrence in `s`, one place further on. */
  lemma OccursInTail(s: string, t: string, i: nat)
    requires |s| > 0 && OccursAt(s[1..], t, i)
    ensures OccursAt(s, t, i + 1)
  {
    assert s[1..][i..i + |t|] == s[i + 1..i + 1 + |t|];
  }

  /** A text in which the token does not occur is returned unchanged. */
  lemma {:induction false} ReplaceAbsent(s: string, t: string, v: string)
    requires !Contains(s, t)
    ensures ReplaceAll(s, t, v) == s
    decreases |s|
  {
    if t == [] {
      assert false;
    } else if |s| >= |t| {
      assert !OccursAt(s, t, 0);
      forall i: nat ensures !OccursAt(s[1..], t, i) {
        if OccursAt(s[1..], t, i) {
          OccursInTail(s, t, i);
        }
      }
      ReplaceAbsent(s[1..], t, v);
    }
  }

  /** Replacing a token by itself changes nothing. */
  lemma {:induction false} ReplaceBySelf(s: string, t: string)
    ensures ReplaceAll(s, t, t) == s
    decreases |s|
  {
    if t == [] {
      if s != [] {
        ReplaceBySelf(s[1..], t);
        assert [s[0]] + s[1..] == s;
      }
    } else if |s| >= |t| {
      if s[..|t|] == t {
        ReplaceBySelf(s[|t|..], t);
        assert s[..|t|] + s[|t|..] == s;
      } else {
        ReplaceBySelf(s[1..], t);
        assert [s[0]] + s[1..] == s;
      }
    }
  }

  /** A text that is exactly the token becomes exactly the value. */
  lemma ReplaceWhole(t: string, v: string)
    requires t != []
    ensures ReplaceAll(t, t, v) == v
  {
    assert t[|t|..] == [];
  }

  lemma MulSucc(n: int, d: int)
    ensures (n + 1) * d == n * d + d
  {
  }

  /** Each rewritten occurrence changes the length by `|v| - |t|`. */
  lemma {:induction false} ReplaceLength(s: string, t: string, v: string)
    ensures |ReplaceAll(s, t, v)| == |s| + Count(s, t) * (|v| - |t|)
    decreases |s|
  {
    if t == [] {
      if s != [] {
        ReplaceLength(s[1..], t, v);
        var m := |s| - 1;
        assert |ReplaceAll(s[1..], t, v)| == m + (m + 1) * |v|;
        assert |ReplaceAll(s, t, v)| == |v| + 1 + |ReplaceAll(s[1..], t, v)|;
        MulSucc(m + 1, |v|);
      }
    } else if |s| >= |t| {
      if s[..|t|] == t {
        ReplaceLength(s[|t|..], t, v);
        var n, d := Count(s[|t|..], t), |v| - |t|;
        assert |ReplaceAll(s, t, v)| == |v| + |ReplaceAll(s[|t|..], t, v)|;
        MulSucc(n, d);
      } else {
        ReplaceLength(s[1..], t, v);
      }
    }
  }

  /** The token occurs in `s` exactly when `ReplaceAll` has an occurrence to rewrite. */
  lemma {:induction false} CountPositiveIffContains(s: string, t: string)
    ensures Count(s, t) > 0 <==> Contains(s, t)
    decreases |s|
  {
    if t == [] {
      assert OccursAt(s, t, 0);
    } else if |s| < |t| {
    } else if s[..|t|] == t {
      assert OccursAt(s, t, 0);
    } else {
      CountPositiveIffContains(s[1..], t);
      if Contains(s[1..], t) {
        var i: nat :| OccursAt(s[1..], t, i);
        OccursInTail(s, t, i);
      }
      if Contains(s, t) {
        var i: nat :| i <= |s| && OccursAt(s, t, i);
        assert i != 0 && i + |t| <= |s|;
        assert s[1..][i - 1..i - 1 + |t|] == s[i..i + |t|];
        assert OccursAt(s[1..], t, i - 1);
      }
    }
  }

  /** `s.find(t)`: the index of the leftmost occurrence, or -1. */
  function Find(s: string, t: string): (r: int)
    ensures r == -1 <==> !Contains(s, t)
    ensures r >= 0 ==> OccursAt(s, t, r) && forall j: nat :: j < r ==> !OccursAt(s, t, j)
    ensures r >= -1
    decreases |s|
  {
    if |s| < |t| then -1
    else if s[..|t|] == t then
      assert OccursAt(s, t, 0);
      0
    else
      NotAtHeadShift(s, t);
      var k := Find(s[1..], t);
      if k < 0 then -1
      else
        OccursInTail(s, t, k);
        k + 1
  }

  /** Where the token does not start at index 0, every occurrence is one place
      further on than an occurrence in the tail. */
  lemma NotAtHeadShift(s: string, t: string)
    requires |s| > 0 && !OccursAt(s, t, 0)
    ensures forall j: nat :: OccursAt(s, t, j) ==> j > 0 && OccursAt(s[1..], t, j - 1)
  {
    forall j: nat | OccursAt(s, t, j) ensures j > 0 && OccursAt(s[1..], t, j - 1) {
      assert s[1..][j - 1..j - 1 + |t|] == s[j..j + |t|];
    }
  }

  /** `s.split(t)`: the pieces between the occurrences `Find` meets, left to right;
      there is always at least one piece. */
  function Split(s: string, t: string): (parts: seq<string>)
    requires t != []
    ensures |parts| >= 1
    decreases |s|
  {
    var i := Find(s, t);
    if i < 0 then [s] else [s[..i]] + Split(s[i + |t|..], t)
  }

  /** No piece of a split contains the separator. */
  lemma {:induction false} SplitPiecesLackToken(s: string, t: string)
    requires t != []
    ensures forall k :: 0 <= k < |Split(s, t)| ==> !Contains(Split(s, t)[k], t)
    decreases |s|
  {
    var i := Find(s, t);
    if i >= 0 {
      var rest := s[i + |t|..];
      SplitPiecesLackToken(rest, t);
      assert !Contains(s[..i], t) by {
        forall j: nat | j <= i && OccursAt(s[..i], t, j) ensures false {
          assert s[..i][j..j + |t|] == s[j..j + |t|];
          assert OccursAt(s, t, j);
        }
      }
      assert Split(s, t) == [s[..i]] + Split(rest, t);
    }
  }

  /** `v.join(parts)`. */
  function Join(parts: seq<string>, v: string): string
  {
    if parts == [] then ""
    else if |parts| == 1 then parts[0]
    else parts[0] + v + Join(parts[1..], v)
  }

  /** Before the leftmost occurrence nothing is rewritten. */
  lemma {:induction false} ReplaceUpToFirst(s: string, t: string, v: string, i: nat)
    requires t != [] && OccursAt(s, t, i)
    requires forall j: nat :: j < i ==> !OccursAt(s, t, j)
    ensures ReplaceAll(s, t, v) == s[..i] + v + ReplaceAll(s[i + |t|..], t, v)
    decreases i
  {
    if i == 0 {
      ReplaceAtStart(s, t, v);
    } else {
      assert !OccursAt(s, t, 0);
      FirstOccurrenceInTail(s, t, i);
      ReplaceUpToFirst(s[1..], t, v, i - 1);
      assert s[1..][i - 1 + |t|..] == s[i + |t|..];
      ReplaceSkipsChar(s, t, v);
      ConsStep(s, i, ReplaceAll(s, t, v), ReplaceAll(s[1..], t, v), v, ReplaceAll(s[i + |t|..], t, v));
    }
  }

  /** The step of `ReplaceUpToFirst`: the kept first character goes back in front
      of the part of the tail before its first occurrence. */
  lemma ConsStep(s: string, i: nat, x: string, y: string, v: string, after: string)
    requires 0 < i <= |s| && x == [s[0]] + y && y == s[1..][..i - 1] + v + after
    ensures x == s[..i] + v + after
  {
    assert s[1..][..i - 1] == s[1..i];
    calc {
      x;
      [s[0]] + (s[1..i] + v + after);
      ([s[0]] + s[1..i]) + v + after;
      { assert [s[0]] + s[1..i] == s[..i]; }
      s[..i] + v + after;
    }
  }

  /** An occurrence at index 0 is rewritten first. */
  lemma ReplaceAtStart(s: string, t: string, v: string)
    requires t != [] && OccursAt(s, t, 0)
    ensures ReplaceAll(s, t, v) == s[..0] + v + ReplaceAll(s[|t|..], t, v)
  {
    assert s[..0] + v == v;
  }

  /** Where the token does not start, the first character is kept. */
  lemma ReplaceSkipsChar(s: string, t: string, v: string)
    requires t != [] && |s| >= |t| && !OccursAt(s, t, 0)
    ensures ReplaceAll(s, t, v) == [s[0]] + ReplaceAll(s[1..], t, v)
  {
  }

  /** The leftmost occurrence at `i > 0` is the leftmost one at `i - 1` in the tail. */
  lemma FirstOccurrenceInTail(s: string, t: string, i: nat)
    requires i > 0 && OccursAt(s, t, i)
    requires forall j: nat :: j < i ==> !OccursAt(s, t, j)
    ensures OccursAt(s[1..], t, i - 1)
    ensures forall j: nat :: j < i - 1 ==> !OccursAt(s[1..], t, j)
  {
    assert s[1..][i - 1..i - 1 + |t|] == s[i..i + |t|];
    forall j: nat | j < i - 1 ensures !OccursAt(s[1..], t, j) {
      if OccursAt(s[1..], t, j) {
        OccursInTail(s, t, j);
      }
    }
  }

  /** `s.replace(t, v) == v.join(s.split(t))` for a non-empty token: every
      occurrence the split finds is rewritten and every other character is kept. */
  lemma {:induction false} ReplaceIsJoinOfSplit(s: string, t: string, v: string)
    requires t != []
    ensures ReplaceAll(s, t, v) == Join(Split(s, t), v)
    decreases |s|
  {
    var i := Find(s, t);
    if i < 0 {
      ReplaceAbsent(s, t, v);
    } else {
      var rest := s[i + |t|..];
      var parts := Split(rest, t);
      ReplaceUpToFirst(s, t, v, i);
      ReplaceIsJoinOfSplit(rest, t, v);
      JoinCons(s[..i], parts, v);
      calc {
        ReplaceAll(s, t, v);
        s[..i] + v + ReplaceAll(rest, t, v);
        s[..i] + v + Join(parts, v);
        Join([s[..i]] + parts, v);
        { assert Split(s, t) == [s[..i]] + parts; }
        Join(Split(s, t), v);
      }
    }
  }

  /** Joining a first piece onto at least one more puts the separator between them. */
  lemma JoinCons(p: string, parts: seq<string>, v: string)
    requires |parts| >= 1
    ensures Join([p] + parts, v) == p + v + Join(parts, v)
  {
    assert ([p] + parts)[1..] == parts;
  }

  /** Joining the pieces of a split with the separator gives back the text. */
  lemma SplitJoinRoundTrip(s: string, t: string)
    requires t != []
    ensures Join(Split(s, t), t) == s
  {
    ReplaceIsJoinOfSplit(s, t, t);
    ReplaceBySelf(s, t);
  }
}
