/** Loop nesting over opcode sequences: the nesting counter of `find_matched`,
    the positions at which its forward and backward scans stop, and balance. */
module Brackets {
  import opened Instructions

  /** What one opcode contributes to the nesting count. */
  function Delta(op: Opcode): int {
    match op
    case BranchIfZero => 1
    case BranchIfNonzero => -1
    case _ => 0
  }

  /** Opens minus closes in `s`. */
  function Net(s: seq<Opcode>): int {
    if s == [] then 0 else Net(s[..|s| - 1]) + Delta(s[|s| - 1])
  }

  lemma {:induction false} NetAppend(a: seq<Opcode>, b: seq<Opcode>)
    ensures Net(a + b) == Net(a) + Net(b)
  {
    if b == [] {
      assert a + b == a;
    } else {
      assert (a + b)[..|a + b| - 1] == a + b[..|b| - 1];
      NetAppend(a, b[..|b| - 1]);
    }
  }

  /** Growing a slice by one element at its right end. */
  lemma NetSnoc(s: seq<Opcode>, a: int, b: int)
    requires 0 <= a <= b < |s|
    ensures Net(s[a..b + 1]) == Net(s[a..b]) + Delta(s[b])
  {
    assert s[a..b + 1][..b - a] == s[a..b];
  }

  /** Growing a slice by one element at its left end. */
  lemma NetCons(s: seq<Opcode>, a: int, b: int)
    requires 0 <= a < b <= |s|
    ensures Net(s[a..b]) == Delta(s[a]) + Net(s[a + 1..b])
  {
    assert s[a..b] == [s[a]] + s[a + 1..b];
    NetAppend([s[a]], s[a + 1..b]);
    assert [s[a]][..0] == [];
  }

  /** The net count of a slice is the difference of two prefix counts. */
  lemma NetSlice(s: seq<Opcode>, a: int, b: int)
    requires 0 <= a <= b <= |s|
    ensures Net(s[a..b]) == Net(s[..b]) - Net(s[..a])
  {
    assert s[..b] == s[..a] + s[a..b];
    NetAppend(s[..a], s[a..b]);
  }

  /** The value of `find_matched`'s counter `needed` once the forward scan
      from index `i` has looked at index `m`. */
  function ForwardCount(s: seq<Opcode>, i: int, m: int): int
    requires 0 <= i <= m < |s|
  {
    Net(s[i..m + 1])
  }

  /** The value of `needed` once the backward scan from index `j` has looked
      at index `m`. */
  function BackwardCount(s: seq<Opcode>, j: int, m: int): int
    requires 0 <= m <= j < |s|
  {
    -Net(s[m..j + 1])
  }

  lemma ForwardCountStep(s: seq<Opcode>, i: int, m: int)
    requires 0 <= i <= m && m + 1 < |s|
    ensures ForwardCount(s, i, m + 1) == ForwardCount(s, i, m) + Delta(s[m + 1])
  {
    NetSnoc(s, i, m + 1);
  }

  lemma BackwardCountStep(s: seq<Opcode>, j: int, m: int)
    requires 0 < m <= j < |s|
    ensures BackwardCount(s, j, m - 1) == BackwardCount(s, j, m) - Delta(s[m - 1])
  {
    NetCons(s, m - 1, j + 1);
  }

  lemma CountStart(s: seq<Opcode>, i: int)
    requires 0 <= i < |s|
    ensures ForwardCount(s, i, i) == Delta(s[i]) && BackwardCount(s, i, i) == -Delta(s[i])
  {
    var one := s[i..i + 1];
    assert one[..|one| - 1] == [];
    assert Net(one) == Delta(one[0]);
  }

  /** The forward scan of `find_matched` from index `i` stops at `j`: the
      counter, which is 1 after `s[i]`, first returns to zero at `j`. */
  ghost predicate ForwardScanStops(s: seq<Opcode>, i: int, j: int) {
    0 <= i < j < |s| &&
    ForwardCount(s, i, j) == 0 &&
    forall m :: i <= m < j ==> ForwardCount(s, i, m) > 0
  }

  /** The backward scan from index `j` stops at `i`. */
  ghost predicate BackwardScanStops(s: seq<Opcode>, i: int, j: int) {
    0 <= i < j < |s| &&
    BackwardCount(s, j, i) == 0 &&
    forall m :: i < m <= j ==> BackwardCount(s, j, m) > 0
  }

  /** The forward scan from the `[` at `i` runs off the end of `s`. */
  ghost predicate ForwardUnmatched(s: seq<Opcode>, i: int)
    requires 0 <= i < |s|
  {
    forall m :: i <= m < |s| ==> ForwardCount(s, i, m) > 0
  }

  /** The backward scan from the `]` at `j` runs off the front of `s`. */
  ghost predicate BackwardUnmatched(s: seq<Opcode>, j: int)
    requires 0 <= j < |s|
  {
    forall m :: 0 <= m <= j ==> BackwardCount(s, j, m) > 0
  }

  /** A bracket whose scan leaves the program. */
  ghost predicate Unmatched(s: seq<Opcode>, k: int)
    requires 0 <= k < |s|
  {
    (s[k] == BranchIfZero && ForwardUnmatched(s, k)) ||
    (s[k] == BranchIfNonzero && BackwardUnmatched(s, k))
  }

  /** The scans stop on brackets of the right kind. */
  lemma ScanEnds(s: seq<Opcode>, i: int, j: int)
    requires ForwardScanStops(s, i, j) || BackwardScanStops(s, i, j)
    ensures s[i] == BranchIfZero && s[j] == BranchIfNonzero
  {
    CountStart(s, i);
    CountStart(s, j);
    if ForwardScanStops(s, i, j) {
      ForwardCountStep(s, i, j - 1);
    } else {
      BackwardCountStep(s, j, i + 1);
    }
  }

  /** The forward scan from the `[` at `i` stops at `j` exactly when the
      backward scan from the `]` at `j` stops at `i`. */
  lemma MatchSymmetric(s: seq<Opcode>, i: int, j: int)
    requires 0 <= i < j < |s|
    ensures ForwardScanStops(s, i, j) <==> BackwardScanStops(s, i, j)
  {
    assert ForwardCount(s, i, j) == -BackwardCount(s, j, i);
    forall m | i < m <= j
      ensures BackwardCount(s, j, m) == ForwardCount(s, i, m - 1) - ForwardCount(s, i, j)
    {
      assert s[i..j + 1] == s[i..m] + s[m..j + 1];
      NetAppend(s[i..m], s[m..j + 1]);
    }
    if ForwardScanStops(s, i, j) {
      forall m | i < m <= j ensures BackwardCount(s, j, m) > 0 {
        assert ForwardCount(s, i, m - 1) > 0;
      }
    }
    if BackwardScanStops(s, i, j) {
      forall m | i <= m < j ensures ForwardCount(s, i, m) > 0 {
        assert BackwardCount(s, j, m + 1) > 0;
      }
    }
  }

  /** Every prefix of `s` keeps the depth, started at `depth`, non-negative,
      and the depth is back to zero at the end. */
  ghost predicate Balanced(s: seq<Opcode>, depth: int) {
    if s == [] then depth == 0
    else depth + Delta(s[0]) >= 0 && Balanced(s[1..], depth + Delta(s[0]))
  }

  /** The prefix counts of `s` are those of `s[1..]` shifted by `s[0]`. */
  lemma PrefixCons(s: seq<Opcode>, k: int)
    requires 1 <= k <= |s|
    ensures Net(s[..k]) == Delta(s[0]) + Net(s[1..][..k - 1])
  {
    NetCons(s, 0, k);
    assert s[0..k] == s[..k] && s[1..k] == s[1..][..k - 1];
  }

  lemma {:induction false} BalancedPrefixes(s: seq<Opcode>, depth: int)
    requires depth >= 0
    ensures Balanced(s, depth) <==>
              depth + Net(s) == 0 && forall k :: 0 <= k <= |s| ==> depth + Net(s[..k]) >= 0
    decreases |s|
  {
    if s != [] {
      var d := depth + Delta(s[0]);
      PrefixCons(s, |s|);
      assert s[..|s|] == s && s[1..][..|s| - 1] == s[1..];
      if Balanced(s, depth) {
        BalancedPrefixes(s[1..], d);
        forall k | 0 <= k <= |s| ensures depth + Net(s[..k]) >= 0 {
          if k == 0 {
            assert s[..0] == [];
          } else {
            PrefixCons(s, k);
          }
        }
      }
      if depth + Net(s) == 0 && forall k :: 0 <= k <= |s| ==> depth + Net(s[..k]) >= 0 {
        assert depth + Net(s[..1]) >= 0;
        PrefixCons(s, 1);
        assert s[1..][..0] == [];
        forall k | 0 <= k <= |s[1..]| ensures d + Net(s[1..][..k]) >= 0 {
          assert depth + Net(s[..k + 1]) >= 0;
          PrefixCons(s, k + 1);
        }
        BalancedPrefixes(s[1..], d);
      }
    }
  }

  /** If some prefix count is negative, there is a first one. */
  lemma {:induction false} FirstNegativePrefix(s: seq<Opcode>, k: int) returns (k0: int)
    requires 0 <= k <= |s| && Net(s[..k]) < 0
    ensures 0 <= k0 <= k && Net(s[..k0]) < 0
    ensures forall m :: 0 <= m < k0 ==> Net(s[..m]) >= 0
    decreases k
  {
    if forall m :: 0 <= m < k ==> Net(s[..m]) >= 0 {
      k0 := k;
    } else {
      var m :| 0 <= m < k && Net(s[..m]) < 0;
      k0 := FirstNegativePrefix(s, m);
    }
  }

  /** If a prefix count is below `t` and the full count is `t`, there is a
      last prefix below `t`. */
  lemma {:induction false} LastPrefixBelow(s: seq<Opcode>, t: int, k: int) returns (m: int)
    requires 0 <= k < |s| && Net(s[..k]) < t
    ensures k <= m < |s| && Net(s[..m]) < t
    ensures forall m' :: m < m' < |s| ==> Net(s[..m']) >= t
    decreases |s| - k
  {
    if forall m' :: k < m' < |s| ==> Net(s[..m']) >= t {
      m := k;
    } else {
      var m' :| k < m' < |s| && Net(s[..m']) < t;
      m := LastPrefixBelow(s, t, m');
    }
  }

  /** In a balanced sequence no scan leaves the sequence. */
  lemma BalancedAllMatched(s: seq<Opcode>, k: int)
    requires 0 <= k < |s|
    requires Net(s) == 0 && forall m :: 0 <= m <= |s| ==> Net(s[..m]) >= 0
    ensures !Unmatched(s, k)
  {
    assert s[..|s|] == s;
    if s[k] == BranchIfZero {
      NetSlice(s, k, |s|);
      assert ForwardCount(s, k, |s| - 1) <= 0;
    } else if s[k] == BranchIfNonzero {
      NetSlice(s, 0, k + 1);
      assert s[..0] == [];
      assert BackwardCount(s, k, 0) <= 0;
    }
  }

  /** The `]` that first drives the depth below zero has no partner. */
  lemma NegativePrefixUnmatched(s: seq<Opcode>, k: int) returns (j: int)
    requires 0 <= k <= |s| && Net(s[..k]) < 0
    ensures 0 <= j < |s| && Unmatched(s, j)
  {
    var k0 := FirstNegativePrefix(s, k);
    assert s[..0] == [];
    j := k0 - 1;
    assert Net(s[..j]) >= 0;
    NetSnoc(s, 0, j);
    assert s[0..j + 1] == s[..k0] && s[0..j] == s[..j];
    assert s[j] == BranchIfNonzero;
    forall m | 0 <= m <= j ensures BackwardCount(s, j, m) > 0 {
      NetSlice(s, m, j + 1);
    }
  }

  /** When the depth never drops below zero but ends above it, the `[`
      after the last prefix below the final depth has no partner. */
  lemma PositiveEndUnmatched(s: seq<Opcode>) returns (m: int)
    requires Net(s) > 0 && forall k :: 0 <= k <= |s| ==> Net(s[..k]) >= 0
    ensures 0 <= m < |s| && Unmatched(s, m)
  {
    var t := Net(s);
    assert s[..0] == [];
    assert s[..|s|] == s;
    m := LastPrefixBelow(s, t, 0);
    assert Net(s[..m + 1]) >= t;
    NetSnoc(s, 0, m);
    assert s[0..m + 1] == s[..m + 1] && s[0..m] == s[..m];
    assert s[m] == BranchIfZero;
    forall k | m <= k < |s| ensures ForwardCount(s, m, k) > 0 {
      NetSlice(s, m, k + 1);
      assert Net(s[..k + 1]) >= t;
    }
  }

  /** Both scans of `find_matched` succeed from every bracket exactly when
      the brackets are balanced. */
  lemma BalancedIffAllMatched(s: seq<Opcode>)
    ensures Balanced(s, 0) <==> forall k :: 0 <= k < |s| ==> !Unmatched(s, k)
  {
    BalancedPrefixes(s, 0);
    assert s[..|s|] == s;
    if Balanced(s, 0) {
      forall k | 0 <= k < |s| ensures !Unmatched(s, k) {
        BalancedAllMatched(s, k);
      }
    } else if exists k :: 0 <= k <= |s| && Net(s[..k]) < 0 {
      var k :| 0 <= k <= |s| && Net(s[..k]) < 0;
      var j := NegativePrefixUnmatched(s, k);
    } else {
      var m := PositiveEndUnmatched(s);
    }
  }

  /** The loop brackets of an opcode sequence, in order. */
  function BracketOps(s: seq<Opcode>): (r: seq<Opcode>)
    ensures forall k :: 0 <= k < |r| ==> IsBranch(r[k])
  {
    if s == [] then []
    else (if IsBranch(s[0]) then [s[0]] else []) + BracketOps(s[1..])
  }

  /** Balance depends on the brackets alone. */
  lemma {:induction false} BalancedBrackets(s: seq<Opcode>, depth: int)
    requires depth >= 0
    ensures Balanced(s, depth) <==> Balanced(BracketOps(s), depth)
  {
    if s != [] && depth + Delta(s[0]) >= 0 {
      BalancedBrackets(s[1..], depth + Delta(s[0]));
      if IsBranch(s[0]) {
        assert BracketOps(s) == [s[0]] + BracketOps(s[1..]);
        assert BracketOps(s)[1..] == BracketOps(s[1..]);
      } else {
        assert BracketOps(s) == BracketOps(s[1..]);
      }
    }
  }
}
