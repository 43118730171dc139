/** Bracket matching used while decoding: the forward scan of
    search_right_bracket and the backward scan of search_left_bracket,
    each as the function it computes, as the loop the Rust code runs, and
    with a declarative description of the partner it finds. */
module Brackets {
  import opened Wrappers

  /** How much a span changes the nesting depth: its '[' count minus its ']' count. */
  function Depth(s: seq<char>): int
  {
    multiset(s)['['] as int - multiset(s)[']'] as int
  }

  /** How much one character changes the nesting depth. */
  function Delta(c: char): int
  {
    if c == '[' then 1 else if c == ']' then -1 else 0
  }

  /** The counter the forward scan from the '[' at pos holds when it reaches q. */
  function RightCounter(vec: seq<char>, pos: nat, q: nat): int
    requires pos < q <= |vec|
  {
    Depth(vec[pos + 1..q])
  }

  lemma DepthSplit(s: seq<char>, a: nat, m: nat, b: nat)
    requires a <= m <= b <= |s|
    ensures Depth(s[a..b]) == Depth(s[a..m]) + Depth(s[m..b])
  {
    assert s[a..b] == s[a..m] + s[m..b];
  }

  lemma DepthSnoc(s: seq<char>, a: nat, b: nat)
    requires a <= b < |s|
    ensures Depth(s[a..b + 1]) == Depth(s[a..b]) + Delta(s[b])
  {
    assert s[a..b + 1] == s[a..b] + [s[b]];
  }

  lemma DepthCons(s: seq<char>, a: nat, b: nat)
    requires a < b <= |s|
    ensures Depth(s[a..b]) == Delta(s[a]) + Depth(s[a + 1..b])
  {
    assert s[a..b] == [s[a]] + s[a + 1..b];
  }

  // ---------------------------------------------------------------------
  // Forward scan (search_right_bracket)
  // ---------------------------------------------------------------------

  /** The forward scan from index p with nesting counter cnt, as the loop of
      search_right_bracket performs it. The counter is a nat: it is only
      decremented when it is not zero, so it never goes below zero. */
  function ScanRight(vec: seq<char>, p: nat, cnt: nat): (r: Option<nat>)
    ensures r.Some? ==> p <= r.value < |vec| && vec[r.value] == ']'
    decreases |vec| - p
  {
    if p >= |vec| then None
    else if cnt == 0 && vec[p] == ']' then Some(p)
    else if vec[p] == '[' then ScanRight(vec, p + 1, cnt + 1)
    else if vec[p] == ']' then ScanRight(vec, p + 1, cnt - 1)
    else ScanRight(vec, p + 1, cnt)
  }

  /** search_right_bracket(pos, vec): the scan starts just after pos with a zero counter. */
  function RightBracket(pos: nat, vec: seq<char>): (r: Option<nat>)
    ensures r.Some? ==> pos < r.value < |vec| && vec[r.value] == ']'
  {
    ScanRight(vec, pos + 1, 0)
  }

  /** q closes the bracket at pos: a ']' after pos with a balanced span between them. */
  ghost predicate ClosesAt(vec: seq<char>, pos: nat, q: nat)
  {
    pos < q < |vec| && vec[q] == ']' && Depth(vec[pos + 1..q]) == 0
  }

  /** p is the first position that closes the bracket at pos. */
  ghost predicate IsRightPartner(vec: seq<char>, pos: nat, p: nat)
  {
    ClosesAt(vec, pos, p) && forall q :: pos < q < p ==> !ClosesAt(vec, pos, q)
  }

  lemma {:induction false} ScanRightMeets(vec: seq<char>, pos: nat, p: nat, cnt: nat)
    requires pos < p <= |vec|
    requires cnt == Depth(vec[pos + 1..p])
    requires forall q :: pos < q < p ==> !ClosesAt(vec, pos, q)
    ensures ScanRight(vec, p, cnt).Some? ==> IsRightPartner(vec, pos, ScanRight(vec, p, cnt).value)
    ensures ScanRight(vec, p, cnt).None? ==> forall q :: pos < q < |vec| ==> !ClosesAt(vec, pos, q)
    decreases |vec| - p
  {
    if p < |vec| {
      DepthSnoc(vec, pos + 1, p);
      if !(cnt == 0 && vec[p] == ']') {
        assert !ClosesAt(vec, pos, p);
        var next: nat := if vec[p] == '[' then cnt + 1 else if vec[p] == ']' then cnt - 1 else cnt;
        ScanRightMeets(vec, pos, p + 1, next);
      }
    }
  }

  /** What search_right_bracket returns: the first ']' after pos that closes a
      balanced span, and None exactly when there is no such ']'. */
  lemma RightBracketSpec(pos: nat, vec: seq<char>)
    ensures RightBracket(pos, vec).Some? ==> IsRightPartner(vec, pos, RightBracket(pos, vec).value)
    ensures RightBracket(pos, vec).None? <==> forall q :: pos < q < |vec| ==> !ClosesAt(vec, pos, q)
  {
    if pos + 1 <= |vec| {
      ScanRightMeets(vec, pos, pos + 1, 0);
    }
  }

  /** A span whose depth is negative has a first ']' at which the depth of the
      prefix before it is zero. */
  lemma {:induction false} FirstDrop(s: seq<char>, a: nat, b: nat) returns (q: nat)
    requires a <= b <= |s| && Depth(s[a..b]) < 0
    ensures a <= q < b && s[q] == ']' && Depth(s[a..q]) == 0
    decreases b
  {
    assert s[a..a] == [];
    DepthSnoc(s, a, b - 1);
    if Depth(s[a..b - 1]) < 0 {
      q := FirstDrop(s, a, b - 1);
    } else {
      q := b - 1;
    }
  }

  /** A span whose depth is positive has a last '[' after which the rest of the
      span is balanced. */
  lemma {:induction false} LastRise(s: seq<char>, a: nat, b: nat) returns (q: nat)
    requires a <= b <= |s| && Depth(s[a..b]) > 0
    ensures a <= q < b && s[q] == '[' && Depth(s[q + 1..b]) == 0
    decreases b - a
  {
    assert s[b..b] == [];
    DepthCons(s, a, b);
    if Depth(s[a + 1..b]) > 0 {
      q := LastRise(s, a + 1, b);
    } else {
      q := a;
    }
  }

  /** Between a '[' and the ']' the forward scan pairs it with, the counter of
      search_right_bracket never drops below zero. */
  lemma RightPartnerNeverNegative(vec: seq<char>, pos: nat, p: nat)
    requires IsRightPartner(vec, pos, p)
    ensures forall q :: pos < q <= p ==> RightCounter(vec, pos, q) >= 0
  {
    forall q | pos < q <= p
      ensures RightCounter(vec, pos, q) >= 0
    {
      if Depth(vec[pos + 1..q]) < 0 {
        var k := FirstDrop(vec, pos + 1, q);
        assert ClosesAt(vec, pos, k);
        assert false;
      }
    }
  }

  /** search_right_bracket as the Rust code writes it: a loop over p with a counter. */
  method SearchRightBracket(pos: nat, vec: seq<char>) returns (r: Option<nat>)
    ensures r == RightBracket(pos, vec)
  {
    var cnt: nat := 0;
    var p := pos + 1;
    while p < |vec|
      invariant ScanRight(vec, p, cnt) == RightBracket(pos, vec)
      decreases |vec| - p
    {
      if cnt == 0 && vec[p] == ']' {
        return Some(p);
      } else if vec[p] == '[' {
        cnt := cnt + 1;
      } else if vec[p] == ']' {
        cnt := cnt - 1;
      }
      p := p + 1;
    }
    return None;
  }

  // ---------------------------------------------------------------------
  // Backward scan (search_left_bracket)
  // ---------------------------------------------------------------------

  /** The backward scan: inspects index hi - 1 first, then lower indices, but
      none below floor; cnt counts the ']' still waiting for their '['. */
  function ScanLeft(vec: seq<char>, hi: nat, cnt: nat, floor: nat): (r: Option<nat>)
    requires hi <= |vec|
    ensures r.Some? ==> floor <= r.value < hi && vec[r.value] == '['
    decreases hi
  {
    if hi <= floor then None
    else if cnt == 0 && vec[hi - 1] == '[' then Some(hi - 1)
    else if vec[hi - 1] == ']' then ScanLeft(vec, hi - 1, cnt + 1, floor)
    else if vec[hi - 1] == '[' then ScanLeft(vec, hi - 1, cnt - 1, floor)
    else ScanLeft(vec, hi - 1, cnt, floor)
  }

  /** search_left_bracket(pos, vec) as written: p starts at pos - 1 (which
      underflows at pos == 0) and the loop `while p > 0` stops before index 0,
      so the lowest index it inspects is 1. */
  function LeftBracket(pos: nat, vec: seq<char>): (r: Option<nat>)
    requires 0 < pos <= |vec|
    ensures r != Some(0)
  {
    ScanLeft(vec, pos, 0, 1)
  }

  /** Lowering the floor from 1 to 0 changes nothing when the scan already
      finds a partner at or above index 1. */
  lemma {:induction false} ScanLeftFloors(vec: seq<char>, hi: nat, cnt: nat)
    requires hi <= |vec|
    requires ScanLeft(vec, hi, cnt, 1).Some?
    ensures ScanLeft(vec, hi, cnt, 0) == ScanLeft(vec, hi, cnt, 1)
    decreases hi
  {
    if !(cnt == 0 && vec[hi - 1] == '[') {
      var next: nat := if vec[hi - 1] == ']' then cnt + 1 else if vec[hi - 1] == '[' then cnt - 1 else cnt;
      ScanLeftFloors(vec, hi - 1, next);
    }
  }

  /** q opens the bracket at pos: a '[' before pos with a balanced span between them. */
  ghost predicate OpensAt(vec: seq<char>, pos: nat, q: nat)
  {
    q < pos <= |vec| && vec[q] == '[' && Depth(vec[q + 1..pos]) == 0
  }

  /** p is the last position at or above floor that opens the bracket at pos. */
  ghost predicate IsLeftPartner(vec: seq<char>, pos: nat, p: nat, floor: nat)
  {
    floor <= p && OpensAt(vec, pos, p) && forall q :: p < q < pos ==> !OpensAt(vec, pos, q)
  }

  lemma {:induction false} ScanLeftMeets(vec: seq<char>, pos: nat, hi: nat, cnt: nat, floor: nat)
    requires hi <= pos <= |vec|
    requires cnt == -Depth(vec[hi..pos])
    requires forall q :: hi <= q < pos ==> !OpensAt(vec, pos, q)
    ensures ScanLeft(vec, hi, cnt, floor).Some? ==> IsLeftPartner(vec, pos, ScanLeft(vec, hi, cnt, floor).value, floor)
    ensures ScanLeft(vec, hi, cnt, floor).None? ==> forall q :: floor <= q < pos ==> !OpensAt(vec, pos, q)
    decreases hi
  {
    if hi > floor {
      DepthCons(vec, hi - 1, pos);
      if !(cnt == 0 && vec[hi - 1] == '[') {
        assert !OpensAt(vec, pos, hi - 1);
        var next: nat := if vec[hi - 1] == ']' then cnt + 1 else if vec[hi - 1] == '[' then cnt - 1 else cnt;
        ScanLeftMeets(vec, pos, hi - 1, next, floor);
      }
    }
  }

  /** What the backward scan returns: the last '[' at or above floor before pos
      that opens a balanced span, and None exactly when there is none. */
  lemma LeftScanSpec(pos: nat, vec: seq<char>, floor: nat)
    requires pos <= |vec|
    ensures ScanLeft(vec, pos, 0, floor).Some? ==> IsLeftPartner(vec, pos, ScanLeft(vec, pos, 0, floor).value, floor)
    ensures ScanLeft(vec, pos, 0, floor).None? <==> forall q :: floor <= q < pos ==> !OpensAt(vec, pos, q)
  {
    assert vec[pos..pos] == [];
    ScanLeftMeets(vec, pos, pos, 0, floor);
  }

  /** Between the ']' at pos and the '[' the backward scan pairs it with, the
      counter of search_left_bracket never drops below zero. */
  lemma LeftPartnerNeverNegative(vec: seq<char>, pos: nat, p: nat, floor: nat)
    requires IsLeftPartner(vec, pos, p, floor)
    ensures forall q :: p < q <= pos ==> Depth(vec[q..pos]) <= 0
  {
    forall q | p < q <= pos
      ensures Depth(vec[q..pos]) <= 0
    {
      if Depth(vec[q..pos]) > 0 {
        var k := LastRise(vec, q, pos);
        assert OpensAt(vec, pos, k);
        assert false;
      }
    }
  }

  /** The partner found forward from a '[' is found backward from its ']'. */
  lemma RightThenLeft(vec: seq<char>, i: nat, j: nat)
    requires IsRightPartner(vec, i, j) && vec[i] == '['
    ensures OpensAt(vec, j, i)
    ensures forall q :: i < q < j ==> !OpensAt(vec, j, q)
  {
    RightPartnerNeverNegative(vec, i, j);
    forall q | i < q < j
      ensures !OpensAt(vec, j, q)
    {
      if vec[q] == '[' {
        assert RightCounter(vec, i, q) >= 0;
        DepthSnoc(vec, i + 1, q);
        DepthSplit(vec, i + 1, q + 1, j);
      }
    }
  }

  /** The partner found backward from a ']' is found forward from its '['. */
  lemma LeftThenRight(vec: seq<char>, i: nat, j: nat, floor: nat)
    requires IsLeftPartner(vec, j, i, floor) && j < |vec| && vec[j] == ']'
    ensures ClosesAt(vec, i, j)
    ensures forall q :: i < q < j ==> !ClosesAt(vec, i, q)
  {
    forall q | i < q < j
      ensures !ClosesAt(vec, i, q)
    {
      if ClosesAt(vec, i, q) {
        DepthSplit(vec, i + 1, q, j);
        DepthCons(vec, q, j);
        var k := LastRise(vec, q + 1, j);
        assert OpensAt(vec, j, k);
        assert false;
      }
    }
  }

  /** Every ']' of s has a '[' that opens it. */
  ghost predicate EveryCloseOpened(s: seq<char>)
  {
    forall k :: 0 <= k < |s| && s[k] == ']' ==> exists i :: OpensAt(s, k, i)
  }

  /** Every '[' of s has a ']' that closes it. */
  ghost predicate EveryOpenClosed(s: seq<char>)
  {
    forall q :: 0 <= q < |s| && s[q] == '[' ==> exists j :: ClosesAt(s, q, j)
  }

  /** The prefix up to a ']' is one deeper than the prefix up to its opener. */
  lemma OpenerDepth(s: seq<char>, i: nat, m: nat)
    requires OpensAt(s, m, i)
    ensures Depth(s[0..m]) == Depth(s[0..i]) + 1
  {
    DepthSplit(s, 0, i, m);
    DepthCons(s, i, m);
  }

  /** Past a '[' whose rest is balanced, the rest after its closer has depth one. */
  lemma CloserDepth(s: seq<char>, q: nat, j: nat)
    requires ClosesAt(s, q, j) && Depth(s[q + 1..|s|]) == 0
    ensures Depth(s[j + 1..|s|]) == 1
  {
    DepthSplit(s, q + 1, j, |s|);
    DepthCons(s, j, |s|);
  }

  /** When every ']' is opened, no prefix closes more brackets than it opens:
      the first ']' that would has its '[' in a shorter prefix of negative depth. */
  lemma {:induction false} PrefixDepth(s: seq<char>, k: nat)
    requires EveryCloseOpened(s) && k <= |s|
    ensures Depth(s[0..k]) >= 0
    decreases k
  {
    if Depth(s[0..k]) < 0 {
      var q := FirstDrop(s, 0, k);
      var i: nat :| OpensAt(s, q, i);
      OpenerDepth(s, i, q);
      PrefixDepth(s, i);
    }
  }

  /** When every '[' is closed, no suffix opens more brackets than it closes:
      the last '[' that would has a ']' beyond which the rest again has
      positive depth. */
  lemma {:induction false} SuffixDepth(s: seq<char>, a: nat)
    requires EveryOpenClosed(s) && a <= |s|
    ensures Depth(s[a..|s|]) <= 0
    decreases |s| - a
  {
    if Depth(s[a..|s|]) > 0 {
      var q := LastRise(s, a, |s|);
      var j: nat :| ClosesAt(s, q, j);
      CloserDepth(s, q, j);
      SuffixDepth(s, j + 1);
    }
  }

  /** search_left_bracket as the Rust code writes it: p runs from pos - 1 down to 1. */
  method SearchLeftBracket(pos: nat, vec: seq<char>) returns (r: Option<nat>)
    requires 0 < pos <= |vec|
    ensures r == LeftBracket(pos, vec)
  {
    var cnt: nat := 0;
    var p := pos - 1;
    while p > 0
      invariant p < pos
      invariant ScanLeft(vec, p + 1, cnt, 1) == LeftBracket(pos, vec)
    {
      if cnt == 0 && vec[p] == '[' {
        return Some(p);
      } else if vec[p] == ']' {
        cnt := cnt + 1;
      } else if vec[p] == '[' {
        cnt := cnt - 1;
      }
      p := p - 1;
    }
    return None;
  }
}
