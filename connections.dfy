/** The connecting lines of drawConnections: one line between the icons i
    and j for every i < j, drawn in the order of the double loop. */
module LinePairs {

  /** The lines the inner loop draws from icon i, for j = from, ..., n - 1. */
  function Row(i: nat, from: nat, n: nat): seq<(nat, nat)>
    decreases n - from
  {
    if from >= n then [] else [(i, from)] + Row(i, from + 1, n)
  }

  /** The lines the outer loop draws for i = from, ..., n - 1. */
  function PairsFrom(from: nat, n: nat): seq<(nat, nat)>
    decreases n - from
  {
    if from >= n then [] else Row(from, from + 1, n) + PairsFrom(from + 1, n)
  }

  /** All lines drawn between n icons. */
  function Connections(n: nat): seq<(nat, nat)> {
    PairsFrom(0, n)
  }

  /** p precedes q in the order the double loop reaches them. */
  predicate Before(p: (nat, nat), q: (nat, nat)) {
    p.0 < q.0 || (p.0 == q.0 && p.1 < q.1)
  }

  predicate StrictlyOrdered(s: seq<(nat, nat)>) {
    forall a, b :: 0 <= a < b < |s| ==> Before(s[a], s[b])
  }

  lemma {:induction false} RowLength(i: nat, from: nat, n: nat)
    requires from <= n
    ensures |Row(i, from, n)| == n - from
    decreases n - from
  {
    if from < n {
      RowLength(i, from + 1, n);
    }
  }

  lemma {:induction false} RowMembers(i: nat, from: nat, n: nat)
    ensures forall p :: p in Row(i, from, n) <==> p.0 == i && from <= p.1 < n
    decreases n - from
  {
    if from < n {
      RowMembers(i, from + 1, n);
    }
  }

  lemma {:induction false} RowOrdered(i: nat, from: nat, n: nat)
    ensures StrictlyOrdered(Row(i, from, n))
    decreases n - from
  {
    if from < n {
      RowOrdered(i, from + 1, n);
      RowMembers(i, from + 1, n);
      var r := Row(i, from + 1, n);
      var all := [(i, from)] + r;
      forall a, b | 0 <= a < b < |all| ensures Before(all[a], all[b]) {
        if a > 0 {
          assert all[a] == r[a - 1];
        }
        assert all[b] == r[b - 1];
        assert r[b - 1] in r;
      }
    }
  }

  lemma {:induction false} PairsFromLength(from: nat, n: nat)
    requires from <= n
    ensures 2 * |PairsFrom(from, n)| == (n - from) * (n - from - 1)
    decreases n - from
  {
    if from < n {
      PairsFromLength(from + 1, n);
      RowLength(from, from + 1, n);
      var m := n - from;
      assert 2 * |PairsFrom(from + 1, n)| == (m - 1) * (m - 2);
      assert |PairsFrom(from, n)| == (m - 1) + |PairsFrom(from + 1, n)|;
      assert (m - 1) * (m - 2) + 2 * (m - 1) == m * (m - 1);
    }
  }

  lemma {:induction false} PairsFromMembers(from: nat, n: nat)
    ensures forall p :: p in PairsFrom(from, n) <==> from <= p.0 < p.1 < n
    decreases n - from
  {
    if from < n {
      PairsFromMembers(from + 1, n);
      RowMembers(from, from + 1, n);
    }
  }

  lemma {:induction false} PairsFromOrdered(from: nat, n: nat)
    ensures StrictlyOrdered(PairsFrom(from, n))
    decreases n - from
  {
    if from < n {
      PairsFromOrdered(from + 1, n);
      PairsFromMembers(from + 1, n);
      RowOrdered(from, from + 1, n);
      RowMembers(from, from + 1, n);
      var row, rest := Row(from, from + 1, n), PairsFrom(from + 1, n);
      var all := row + rest;
      forall a, b | 0 <= a < b < |all| ensures Before(all[a], all[b]) {
        if b < |row| {
        } else if a >= |row| {
          assert all[a] == rest[a - |row|] && all[b] == rest[b - |row|];
        } else {
          assert all[a] in row;
          assert all[b] == rest[b - |row|];
          assert all[b] in rest;
        }
      }
    }
  }

  /** Every line joins two different icons i < j, and every such pair gets a
      line: no self-loops, and nothing is left unconnected. */
  lemma ConnectionsExactly(n: nat, i: nat, j: nat)
    ensures (i, j) in Connections(n) <==> i < j < n
  {
    PairsFromMembers(0, n);
  }

  /** No pair is drawn twice (the lines come in strictly increasing order). */
  lemma ConnectionsDistinct(n: nat)
    ensures forall a, b :: 0 <= a < b < |Connections(n)| ==> Connections(n)[a] != Connections(n)[b]
  {
    PairsFromOrdered(0, n);
  }

  /** n icons are joined by n(n-1)/2 lines; none at all when n <= 1. */
  lemma ConnectionsCount(n: nat)
    ensures |Connections(n)| == n * (n - 1) / 2
    ensures n <= 1 ==> Connections(n) == []
  {
    PairsFromLength(0, n);
  }

  /** One step of the inner loop: drawing line (i, j) moves it from the
      lines still to come onto the lines drawn. */
  lemma InnerStep(drawn: seq<(nat, nat)>, i: nat, j: nat, n: nat)
    requires j < n
    ensures drawn + Row(i, j, n) + PairsFrom(i + 1, n) == (drawn + [(i, j)]) + Row(i, j + 1, n) + PairsFrom(i + 1, n)
  {
    assert Row(i, j, n) == [(i, j)] + Row(i, j + 1, n);
  }

  /** The outer loop moves on to icon i: its row comes first. */
  lemma OuterStep(drawn: seq<(nat, nat)>, i: nat, n: nat)
    requires i < n
    ensures drawn + PairsFrom(i, n) == drawn + Row(i, i + 1, n) + PairsFrom(i + 1, n)
  {
  }

  /** The double loop of drawConnections over n icons. */
  method ConnectionLines(n: nat) returns (lines: seq<(nat, nat)>)
    ensures lines == Connections(n)
  {
    lines := [];
    var i: nat := 0;
    while i < n
      invariant i <= n
      invariant lines + PairsFrom(i, n) == Connections(n)
    {
      OuterStep(lines, i, n);
      var j: nat := i + 1;
      while j < n
        invariant i < j <= n
        invariant lines + Row(i, j, n) + PairsFrom(i + 1, n) == Connections(n)
      {
        InnerStep(lines, i, j, n);
        lines := lines + [(i, j)];
        j := j + 1;
      }
      assert Row(i, n, n) == [];
      i := i + 1;
    }
    assert PairsFrom(n, n) == [];
  }
}
