/**
 This module models the two `java.lang.String` operations the voting code relies on:
 `split(",")` (a split on a literal comma, with the limit-zero rule that drops
 trailing empty pieces) and `trim()` (removal of leading and trailing characters
 whose code is at most U+0020).
 */
module JavaStrings {

  const Comma: char := ','

  /** True iff `c` is removed by `String.trim`: every character up to and including the space. */
  predicate IsTrimmable(c: char) {
    c <= ' '
  }

  predicate AllTrimmable(s: string) {
    forall i :: 0 <= i < |s| ==> IsTrimmable(s[i])
  }

  /** True iff `s` neither starts nor ends with a trimmable character. */
  predicate IsTrimmed(s: string) {
    s == [] || (!IsTrimmable(s[0]) && !IsTrimmable(s[|s| - 1]))
  }

  // ---------------------------------------------------------------------------
  // Splitting on a comma
  // ---------------------------------------------------------------------------

  /** Every piece between commas, including empty ones: `n` commas give `n + 1` pieces. */
  function RawSplit(s: string): (r: seq<string>)
    ensures |r| >= 1
    ensures forall i :: 0 <= i < |r| ==> Comma !in r[i]
  {
    if |s| == 0 then [[]]
    else if s[0] == Comma then [[]] + RawSplit(s[1..])
    else
      var rest := RawSplit(s[1..]);
      [[s[0]] + rest[0]] + rest[1..]
  }

  /** Glues pieces back together with a comma between consecutive pieces. */
  function Join(ps: seq<string>): string
    requires |ps| >= 1
  {
    if |ps| == 1 then ps[0] else ps[0] + [Comma] + Join(ps[1..])
  }

  lemma {:induction false} JoinRawSplit(s: string)
    ensures Join(RawSplit(s)) == s
    decreases |s|
  {
    if |s| == 0 {
    } else if s[0] == Comma {
      JoinRawSplit(s[1..]);
      assert s == [s[0]] + s[1..];
    } else {
      var rest := RawSplit(s[1..]);
      JoinRawSplit(s[1..]);
      if |rest| == 1 {
        assert s == [s[0]] + s[1..];
      } else {
        assert Join(rest) == rest[0] + [Comma] + Join(rest[1..]);
        assert s == [s[0]] + s[1..];
      }
    }
  }

  lemma {:induction false} RawSplitPrepend(c: char, t: string, ps: seq<string>)
    requires c != Comma
    requires |ps| >= 1 && RawSplit(t) == ps
    ensures RawSplit([c] + t) == [[c] + ps[0]] + ps[1..]
  {
    assert ([c] + t)[1..] == t;
  }

  /** Splitting undoes joining, as long as no piece itself contains a comma. */
  lemma {:induction false} RawSplitJoin(ps: seq<string>)
    requires |ps| >= 1
    requires forall i :: 0 <= i < |ps| ==> Comma !in ps[i]
    ensures RawSplit(Join(ps)) == ps
    decreases |ps|, if |ps| > 0 then |ps[0]| else 0
  {
    if |ps[0]| == 0 {
      if |ps| == 1 {
      } else {
        var j := Join(ps);
        assert j == [Comma] + Join(ps[1..]);
        assert j[1..] == Join(ps[1..]);
        RawSplitJoin(ps[1..]);
        assert ps == [ps[0]] + ps[1..];
      }
    } else {
      var c := ps[0][0];
      assert c in ps[0];
      var ps' := [ps[0][1..]] + ps[1..];
      forall i | 0 <= i < |ps'|
        ensures Comma !in ps'[i]
      {
        if i > 0 {
          assert ps'[i] == ps[i];
        }
      }
      RawSplitJoin(ps');
      if |ps| == 1 {
        assert Join(ps) == [c] + Join(ps');
      } else {
        assert ps'[1..] == ps[1..];
        assert Join(ps) == [c] + Join(ps') by {
          assert ps[0] == [c] + ps'[0];
        }
      }
      RawSplitPrepend(c, Join(ps'), ps');
      assert ps[0] == [c] + ps'[0];
      assert ps'[1..] == ps[1..];
      assert ps == [[c] + ps'[0]] + ps'[1..];
    }
  }

  /** The limit-zero rule of `String.split`: strip every empty piece at the end. */
  function DropTrailingEmpty(ps: seq<string>): (r: seq<string>)
    ensures |r| <= |ps| && r == ps[..|r|]
    ensures r == [] || r[|r| - 1] != []
    ensures forall i :: |r| <= i < |ps| ==> ps[i] == []
  {
    if |ps| == 0 then []
    else if ps[|ps| - 1] == [] then DropTrailingEmpty(ps[..|ps| - 1])
    else ps
  }

  /**
   `String.split(",")`: with no comma the whole string is the one piece (so the
   empty string gives one empty piece); otherwise the comma-separated pieces with
   the trailing empty ones dropped (so "," gives no pieces at all).
   */
  function Split(s: string): seq<string>
  {
    if Comma !in s then [s] else DropTrailingEmpty(RawSplit(s))
  }

  /**
   The shape of a split: no piece holds a comma; with no comma the string is
   its own single piece; otherwise the pieces are the comma-separated pieces up
   to the last non-empty one, and everything after it is empty.
   */
  lemma SplitShape(s: string)
    ensures forall i :: 0 <= i < |Split(s)| ==> Comma !in Split(s)[i]
    ensures Comma !in s ==> Split(s) == [s]
    ensures Comma in s ==> |Split(s)| <= |RawSplit(s)| && Split(s) == RawSplit(s)[..|Split(s)|]
    ensures Comma in s ==> Split(s) == [] || Split(s)[|Split(s)| - 1] != []
    ensures Comma in s ==> forall i :: |Split(s)| <= i < |RawSplit(s)| ==> RawSplit(s)[i] == []
  {
  }

  lemma {:induction false} JoinHasComma(ps: seq<string>)
    requires |ps| >= 2
    ensures Comma in Join(ps)
  {
    assert Join(ps) == ps[0] + [Comma] + Join(ps[1..]);
    assert Join(ps)[|ps[0]|] == Comma;
  }

  /**
   Splitting undoes joining for two or more comma-free pieces whose last piece
   is not empty; a trailing empty piece would be dropped.
   */
  lemma SplitJoin(ps: seq<string>)
    requires |ps| >= 2
    requires forall i :: 0 <= i < |ps| ==> Comma !in ps[i]
    requires ps[|ps| - 1] != []
    ensures Split(Join(ps)) == ps
  {
    RawSplitJoin(ps);
    JoinHasComma(ps);
  }

  lemma RawSplitNoComma(s: string)
    requires Comma !in s
    ensures RawSplit(s) == [s]
  {
    RawSplitJoin([s]);
  }

  /** A comma appended to a non-empty string adds nothing to its split. */
  lemma SplitIgnoresTrailingComma(s: string)
    requires s != []
    ensures Split(s + [Comma]) == Split(s)
  {
    var ps := RawSplit(s);
    forall i | 0 <= i < |ps + [[]]|
      ensures Comma !in (ps + [[]])[i]
    {
      if i < |ps| {
        assert (ps + [[]])[i] == ps[i];
      }
    }
    JoinRawSplit(s);
    assert Join(ps + [[]]) == s + [Comma] by {
      JoinAppendEmpty(ps);
    }
    RawSplitJoin(ps + [[]]);
    assert (ps + [[]])[..|ps|] == ps;
    if Comma !in s {
      RawSplitNoComma(s);
    }
    assert Comma in s + [Comma];
  }

  lemma {:induction false} JoinAppendEmpty(ps: seq<string>)
    requires |ps| >= 1
    ensures Join(ps + [[]]) == Join(ps) + [Comma]
    decreases |ps|
  {
    if |ps| == 1 {
      assert (ps + [[]])[1..] == [[]];
    } else {
      assert (ps + [[]])[1..] == ps[1..] + [[]];
      JoinAppendEmpty(ps[1..]);
    }
  }

  // ---------------------------------------------------------------------------
  // Trimming
  // ---------------------------------------------------------------------------

  /** The number of trimmable characters at the front of `s`. */
  function LeadCount(s: string): (n: nat)
    ensures n <= |s|
    ensures forall i :: 0 <= i < n ==> IsTrimmable(s[i])
    ensures n == |s| || !IsTrimmable(s[n])
  {
    if |s| > 0 && IsTrimmable(s[0]) then 1 + LeadCount(s[1..]) else 0
  }

  /** The number of trimmable characters at the back of `s`. */
  function TrailCount(s: string): (n: nat)
    ensures n <= |s|
    ensures forall i :: |s| - n <= i < |s| ==> IsTrimmable(s[i])
    ensures n == |s| || !IsTrimmable(s[|s| - n - 1])
  {
    if |s| > 0 && IsTrimmable(s[|s| - 1]) then 1 + TrailCount(s[..|s| - 1]) else 0
  }

  /**
   `String.trim`: the result is the slice of `s` left after removing the
   trimmable characters at both ends; a string of trimmable characters only
   trims to the empty string.
   */
  function Trim(s: string): (r: string)
    ensures IsTrimmed(r)
  {
    var n := LeadCount(s);
    if n == |s| then []
    else
      var m := TrailCount(s);
      assert n < |s| - m;
      s[n..|s| - m]
  }

  /** `trim` keeps a slice of `s` and removes only trimmable characters around it. */
  lemma TrimShape(s: string)
    ensures LeadCount(s) + |Trim(s)| <= |s|
    ensures Trim(s) == s[LeadCount(s)..LeadCount(s) + |Trim(s)|]
    ensures forall i :: 0 <= i < LeadCount(s) ==> IsTrimmable(s[i])
    ensures forall i :: LeadCount(s) + |Trim(s)| <= i < |s| ==> IsTrimmable(s[i])
  {
    if LeadCount(s) < |s| {
      var m := TrailCount(s);
      assert LeadCount(s) < |s| - m;
    }
  }

  /** Whatever is padded with trimmable characters trims back to itself: `trim` is characterised uniquely. */
  lemma TrimUnique(pre: string, mid: string, post: string)
    requires AllTrimmable(pre) && AllTrimmable(post)
    requires IsTrimmed(mid)
    ensures Trim(pre + mid + post) == mid
  {
    var s := pre + mid + post;
    var n := LeadCount(s);
    if mid == [] {
      assert forall i :: 0 <= i < |s| ==> IsTrimmable(s[i]) by {
        forall i | 0 <= i < |s|
          ensures IsTrimmable(s[i])
        {
          if i < |pre| { assert s[i] == pre[i]; } else { assert s[i] == post[i - |pre|]; }
        }
      }
      assert n == |s|;
    } else {
      assert s[|pre|] == mid[0];
      assert forall i :: 0 <= i < |pre| ==> s[i] == pre[i];
      assert n == |pre|;
      var m := TrailCount(s);
      assert s[|s| - |post| - 1] == mid[|mid| - 1];
      assert forall i :: |s| - |post| <= i < |s| ==> s[i] == post[i - (|s| - |post|)];
      assert m == |post|;
      assert s[n..|s| - m] == mid;
    }
  }

  lemma TrimIdempotent(s: string)
    ensures Trim(Trim(s)) == Trim(s)
  {
    var t := Trim(s);
    assert [] + t + [] == t;
    TrimUnique([], t, []);
  }
}
