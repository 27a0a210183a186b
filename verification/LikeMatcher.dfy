/** LIKE: a memoised recursive matcher, and the relation between texts and patterns it decides. */
module LikeMatcher {

  /**
   The text from `i` matches the pattern from `j`: it can be cut into one piece per pattern character, where
   `%` stands for any piece, `?` for any one character, and everything else for itself.
   */
  ghost predicate Matches(s: string, p: string, i: nat, j: nat)
    requires i <= |s| && j <= |p|
  {
    exists cuts: seq<nat> :: Cuts(s, p, i, j, cuts)
  }

  predicate Cuts(s: string, p: string, i: nat, j: nat, cuts: seq<nat>)
    requires i <= |s| && j <= |p|
  {
    && |cuts| == |p| - j + 1
    && cuts[0] == i && cuts[|p| - j] == |s|
    && forall m | 0 <= m < |p| - j :: Piece(s, p[j + m], cuts[m], cuts[m + 1])
  }

  predicate Piece(s: string, c: char, from: nat, to: nat) {
    from <= to <= |s| && (c != '%' ==> to == from + 1 && (c == '?' || c == s[from]))
  }

  lemma MatchesEnd(s: string, p: string, i: nat)
    requires i <= |s|
    ensures Matches(s, p, i, |p|) <==> i == |s|
  {
    if i == |s| { assert Cuts(s, p, i, |p|, [i]); }
  }

  /** The first pattern character takes some piece, and the rest matches what is left. */
  lemma MatchesStep(s: string, p: string, i: nat, j: nat)
    requires i <= |s| && j < |p|
    ensures Matches(s, p, i, j) <==> exists k | i <= k <= |s| :: Piece(s, p[j], i, k) && Matches(s, p, k, j + 1)
  {
    if cuts: seq<nat> :| Cuts(s, p, i, j, cuts) {
      assert Piece(s, p[j + 0], cuts[0], cuts[1]);
      assert Cuts(s, p, cuts[1], j + 1, cuts[1..]) by {
        forall m | 0 <= m < |p| - j - 1 ensures Piece(s, p[j + 1 + m], cuts[1..][m], cuts[1..][m + 1]) {
          assert Piece(s, p[j + (m + 1)], cuts[m + 1], cuts[m + 2]);
        }
      }
    }
    if k :| i <= k <= |s| && Piece(s, p[j], i, k) && Matches(s, p, k, j + 1) {
      var rest: seq<nat> :| Cuts(s, p, k, j + 1, rest);
      var cuts := [i] + rest;
      assert Cuts(s, p, i, j, cuts) by {
        forall m | 0 <= m < |p| - j ensures Piece(s, p[j + m], cuts[m], cuts[m + 1]) {
          if m > 0 { assert Piece(s, p[j + 1 + (m - 1)], rest[m - 1], rest[m]); }
        }
      }
    }
  }

  /** At the end of the text, only a run of `%` matches. */
  lemma {:induction false} MatchesAtEnd(s: string, p: string, j: nat)
    requires j <= |p|
    ensures Matches(s, p, |s|, j) <==> forall m | j <= m < |p| :: p[m] == '%'
    decreases |p| - j
  {
    if j == |p| {
      MatchesEnd(s, p, |s|);
    } else {
      MatchesStep(s, p, |s|, j);
      MatchesAtEnd(s, p, j + 1);
      assert Piece(s, p[j], |s|, |s|) <==> p[j] == '%';
    }
  }

  /** The memo table at any moment: every entry is -1 or the answer for its pair of suffixes. */
  ghost predicate Sound(s: string, p: string, dp: array2<int>)
    reads dp
  {
    && dp.Length0 == |s| + 1 && dp.Length1 == |p| + 1
    && forall i, j | 0 <= i <= |s| && 0 <= j <= |p| ::
         dp[i, j] == -1 || dp[i, j] == if Matches(s, p, i, j) then 1 else 0
  }

  method RecLike(i: nat, j: nat, s: string, p: string, dp: array2<int>) returns (r: bool)
    requires i <= |s| && j <= |p| && Sound(s, p, dp)
    modifies dp
    ensures Sound(s, p, dp) && r == Matches(s, p, i, j)
    decreases |p| - j
  {
    hide Matches;
    if i == |s| {
      MatchesAtEnd(s, p, j);
      var n := j;
      while n < |p| && p[n] == '%'
        invariant j <= n <= |p| && forall m | j <= m < n :: p[m] == '%'
      {
        n := n + 1;
      }
      return n == |p|;
    }
    if j == |p| {
      MatchesEnd(s, p, i);
      return false;
    }
    if dp[i, j] != -1 {
      return dp[i, j] != 0;
    }
    MatchesStep(s, p, i, j);
    if p[j] == '%' {
      ghost var rest := j + 1;
      for k := i to |s| + 1
        invariant Sound(s, p, dp)
        invariant forall m | i <= m < k :: !Matches(s, p, m, rest)
      {
        r := RecLike(k, j + 1, s, p, dp);
        if r {
          assert Piece(s, p[j], i, k);
          dp[i, j] := 1;
          return true;
        }
      }
      dp[i, j] := 0;
      return false;
    }
    if p[j] == '?' || p[j] == s[i] {
      r := RecLike(i + 1, j + 1, s, p, dp);
      assert r ==> Piece(s, p[j], i, i + 1);
      dp[i, j] := if r then 1 else 0;
      return;
    }
    dp[i, j] := 0;
    return false;
  }

  /** The matcher decides the relation, for every text and pattern. */
  method LikeMatch(s: string, p: string) returns (r: bool)
    ensures r == Matches(s, p, 0, 0)
  {
    var dp := new int[|s| + 1, |p| + 1]((_, _) => -1);
    r := RecLike(0, 0, s, p, dp);
  }
}
