/**
  The wildcard matcher used to expand include patterns
  (`wildcard_match_bytes`, crates/dae-config/src/merger.rs).
*/
module Wildcard {
  import opened Bytes

  const STAR: byte := 42
  const QUERY: byte := 63

  /** The recursive meaning of a pattern. */
  predicate Matches(pattern: seq<byte>, name: seq<byte>)
    decreases |pattern| + |name|
  {
    if pattern == [] then name == []
    else if pattern[0] == STAR then
      Matches(pattern[1..], name) || (name != [] && Matches(pattern, name[1..]))
    else
      name != [] && (pattern[0] == QUERY || pattern[0] == name[0]) && Matches(pattern[1..], name[1..])
  }

  /** What one pattern octet may stand for. */
  predicate Fits(c: byte, piece: seq<byte>) {
    c == STAR || (|piece| == 1 && (c == QUERY || piece[0] == c))
  }

  /** `name` splits at `k` into something `pattern` matches and something `c` stands for. */
  predicate SplitAt(pattern: seq<byte>, c: byte, name: seq<byte>, k: nat) {
    k <= |name| && Matches(pattern, name[..k]) && Fits(c, name[k..])
  }

  lemma DropFirst(name: seq<byte>, k: nat)
    requires 1 <= k <= |name|
    ensures name[1..][..k - 1] == name[..k][1..] && name[1..][k - 1..] == name[k..]
  {
  }

  /** The recursion consumes the pattern from the left; this is its form from the right. */
  lemma MatchesSnoc(pattern: seq<byte>, c: byte, name: seq<byte>)
    ensures Matches(pattern + [c], name) <==> exists k: nat :: SplitAt(pattern, c, name, k)
  {
    if Matches(pattern + [c], name) {
      var k := SnocSplit(pattern, c, name);
    }
    forall k: nat | SplitAt(pattern, c, name, k) ensures Matches(pattern + [c], name) {
      SplitSnoc(pattern, c, name, k);
    }
  }

  lemma {:induction false} AnythingFitsStar(name: seq<byte>)
    ensures Matches([STAR], name)
    decreases name
  {
    if name != [] { AnythingFitsStar(name[1..]); }
  }

  lemma OneOctet(c: byte, name: seq<byte>)
    ensures Matches([c], name) <==> Fits(c, name)
  {
    if c == STAR { AnythingFitsStar(name); } else { assert [c][1..] == []; }
  }

  lemma {:induction false} SnocSplit(pattern: seq<byte>, c: byte, name: seq<byte>) returns (k: nat)
    requires Matches(pattern + [c], name)
    ensures SplitAt(pattern, c, name, k)
    decreases |pattern| + |name|
  {
    if pattern == [] {
      assert pattern + [c] == [c];
      OneOctet(c, name);
      k := 0;
    } else {
      assert (pattern + [c])[1..] == pattern[1..] + [c];
      if pattern[0] == STAR && Matches(pattern[1..] + [c], name) {
        k := SnocSplit(pattern[1..], c, name);
      } else {
        var rest := if pattern[0] == STAR then pattern else pattern[1..];
        k := SnocSplit(rest, c, name[1..]);
        k := k + 1;
        DropFirst(name, k);
      }
    }
  }

  lemma {:induction false} SplitSnoc(pattern: seq<byte>, c: byte, name: seq<byte>, k: nat)
    requires SplitAt(pattern, c, name, k)
    ensures Matches(pattern + [c], name)
    decreases |pattern| + |name|
  {
    if pattern == [] {
      assert pattern + [c] == [c] && name[k..] == name;
      OneOctet(c, name);
    } else {
      assert (pattern + [c])[1..] == pattern[1..] + [c];
      if pattern[0] == STAR && Matches(pattern[1..], name[..k]) {
        SplitSnoc(pattern[1..], c, name, k);
      } else {
        DropFirst(name, k);
        SplitSnoc(if pattern[0] == STAR then pattern else pattern[1..], c, name[1..], k - 1);
      }
    }
  }

  /** Row `i` of the table: which prefixes of the name the pattern prefix matches. */
  ghost predicate Row(pattern: seq<byte>, name: seq<byte>, row: seq<bool>) {
    |row| == |name| + 1 && forall j :: 0 <= j <= |name| ==> row[j] == Matches(pattern, name[..j])
  }

  /** A `*` column depends on the one above and the one to the left. */
  lemma StarCell(pattern: seq<byte>, name: seq<byte>)
    ensures Matches(pattern + [STAR], name)
      <==> Matches(pattern, name) || (name != [] && Matches(pattern + [STAR], name[..|name| - 1]))
  {
    MatchesSnoc(pattern, STAR, name);
    assert name[..|name|] == name;
    if Matches(pattern, name) { assert SplitAt(pattern, STAR, name, |name|); }
    if name != [] {
      var shorter := name[..|name| - 1];
      MatchesSnoc(pattern, STAR, shorter);
      forall k: nat ensures k < |name| ==> SplitAt(pattern, STAR, shorter, k) == SplitAt(pattern, STAR, name, k) {
        if k < |name| { assert shorter[..k] == name[..k]; }
      }
    }
  }

  /** Any other column depends on the one diagonally above. */
  lemma StepCell(pattern: seq<byte>, c: byte, name: seq<byte>)
    requires c != STAR
    ensures Matches(pattern + [c], name)
      <==> name != [] && (c == QUERY || name[|name| - 1] == c) && Matches(pattern, name[..|name| - 1])
  {
    MatchesSnoc(pattern, c, name);
    if name != [] {
      assert name[|name| - 1..] == [name[|name| - 1]];
      if Matches(pattern, name[..|name| - 1]) && Fits(c, name[|name| - 1..]) {
        assert SplitAt(pattern, c, name, |name| - 1);
      }
    }
  }

  /** The row under a `*`, from left to right. */
  method StarRow(ghost pattern: seq<byte>, name: seq<byte>, dp: array<bool>, next: array<bool>)
    requires dp != next && Row(pattern, name, dp[..]) && next.Length == |name| + 1
    modifies next
    ensures Row(pattern + [STAR], name, next[..])
  {
    assert forall j :: 1 <= j <= |name| ==> name[..j][..j - 1] == name[..j - 1];
    for j := 0 to |name| + 1
      invariant forall i :: 0 <= i < j ==> next[i] == Matches(pattern + [STAR], name[..i])
      invariant dp[..] == old(dp[..])
    {
      StarCell(pattern, name[..j]);
      next[j] := dp[j] || (j > 0 && next[j - 1]);
    }
  }

  /** The row under a `?`: the one above, moved by one. */
  method QueryRow(ghost pattern: seq<byte>, name: seq<byte>, dp: array<bool>, next: array<bool>)
    requires dp != next && Row(pattern, name, dp[..]) && next.Length == |name| + 1 && !next[0]
    modifies next
    ensures Row(pattern + [QUERY], name, next[..])
  {
    forall j | 1 <= j <= |name| { next[j] := dp[j - 1]; }
    forall j | 0 <= j <= |name| ensures next[j] == Matches(pattern + [QUERY], name[..j]) {
      StepCell(pattern, QUERY, name[..j]);
      if j > 0 { assert name[..j][..j - 1] == name[..j - 1]; }
    }
  }

  /** The row under any other octet, from left to right. */
  method LiteralRow(ghost pattern: seq<byte>, pc: byte, name: seq<byte>, dp: array<bool>, next: array<bool>)
    requires dp != next && pc != STAR && pc != QUERY && Row(pattern, name, dp[..]) && next.Length == |name| + 1 && !next[0]
    modifies next
    ensures Row(pattern + [pc], name, next[..])
  {
    assert forall j :: 1 <= j <= |name| ==> name[..j][..j - 1] == name[..j - 1];
    StepCell(pattern, pc, name[..0]);
    for j := 1 to |name| + 1
      invariant forall i :: 0 <= i < j ==> next[i] == Matches(pattern + [pc], name[..i])
      invariant dp[..] == old(dp[..])
    {
      StepCell(pattern, pc, name[..j]);
      next[j] := dp[j - 1] && name[j - 1] == pc;
    }
  }

  /** One turn of the outer loop: the row for one more pattern octet. */
  method NextRow(ghost pattern: seq<byte>, pc: byte, name: seq<byte>, dp: array<bool>) returns (next: array<bool>)
    requires Row(pattern, name, dp[..])
    ensures fresh(next) && Row(pattern + [pc], name, next[..])
  {
    next := new bool[|name| + 1](_ => false);
    if pc == STAR {
      StarRow(pattern, name, dp, next);
    } else if pc == QUERY {
      QueryRow(pattern, name, dp, next);
    } else {
      LiteralRow(pattern, pc, name, dp, next);
    }
  }


  /** The table-driven matcher agrees with the recursive meaning. */
  method WildcardMatchBytes(pattern: seq<byte>, name: seq<byte>) returns (r: bool)
    ensures r == Matches(pattern, name)
  {
    var dp := new bool[|name| + 1](_ => false);
    dp[0] := true;
    assert Row(pattern[..0], name, dp[..]) by {
      assert forall j :: 0 <= j <= |name| ==> (name[..j] == [] <==> j == 0);
    }
    for i := 0 to |pattern|
      invariant Row(pattern[..i], name, dp[..])
    {
      assert pattern[..i + 1] == pattern[..i] + [pattern[i]];
      dp := NextRow(pattern[..i], pattern[i], name, dp);
    }
    assert pattern[..|pattern|] == pattern && name[..|name|] == name;
    return dp[|name|];
  }
}
