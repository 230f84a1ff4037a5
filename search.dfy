/** Which tasks searchObservations highlights for a query. */
module Search {
  import opened JavaStrings

  /** observation.toLowerCase().contains(query.toLowerCase()) */
  predicate Matches(observation: string, query: string) {
    Contains(Lower(observation), Lower(query))
  }

  /** Some observation of one task matches the query. */
  predicate AnyMatch(observations: seq<string>, query: string) {
    exists k :: 0 <= k < |observations| && Matches(observations[k], query)
  }

  /** The indices of the tasks whose circle turns red; obs[i] are the
      observations of task i. */
  function Highlighted(obs: seq<seq<string>>, query: string): (r: set<nat>)
    ensures forall i :: i in r ==> i < |obs|
  {
    set i: nat | i < |obs| && AnyMatch(obs[i], query)
  }

  /** A match, spelled out: the lower-cased query occurs at some position of
      the lower-cased observation. */
  lemma MatchesIff(observation: string, query: string)
    ensures Matches(observation, query) ==> exists i: nat :: OccursAt(Lower(observation), Lower(query), i)
    ensures (exists i: nat :: OccursAt(Lower(observation), Lower(query), i)) ==> Matches(observation, query)
  {
    var lo, lq := Lower(observation), Lower(query);
    ContainsIff(lo, lq);
  }

  /** The search ignores case on both sides. */
  lemma MatchesIgnoresCase(observation: string, query: string)
    ensures Matches(observation, query) == Matches(Lower(observation), Lower(query))
  {
    LowerIdempotent(observation);
    LowerIdempotent(query);
  }

  /** A match needs an observation at least as long as the query. This is a
      property of the ASCII lowering used here, which keeps the length; Java's
      Unicode lowering can lengthen a string, and there it fails. */
  lemma MatchesNeedsLength(observation: string, query: string)
    requires Matches(observation, query)
    ensures |query| <= |observation|
  {
    MatchesIff(observation, query);
  }

  /** A task without observations is never highlighted: appending a new
      task leaves the highlight unchanged. */
  lemma HighlightedAppendTask(obs: seq<seq<string>>, query: string)
    ensures Highlighted(obs + [[]], query) == Highlighted(obs, query)
  {
    var obs' := obs + [[]];
    forall i: nat ensures i in Highlighted(obs', query) <==> i in Highlighted(obs, query) {
      if i < |obs| { assert obs'[i] == obs[i]; }
    }
  }

  /** Removing the last task removes at most its own index. */
  lemma HighlightedDropLast(obs: seq<seq<string>>, query: string)
    requires obs != []
    ensures Highlighted(obs[..|obs| - 1], query) == Highlighted(obs, query) - {|obs| - 1}
  {
    var obs' := obs[..|obs| - 1];
    forall i: nat ensures i in Highlighted(obs', query) <==> i in Highlighted(obs, query) - {|obs| - 1} {
      if i < |obs'| { assert obs'[i] == obs[i]; }
    }
  }

  /** Adding observation o to task k adds k to the highlight exactly when o
      matches; no other task is affected. */
  lemma HighlightedAddObservation(obs: seq<seq<string>>, query: string, k: nat, o: string)
    requires k < |obs|
    ensures Highlighted(obs[k := obs[k] + [o]], query) ==
      Highlighted(obs, query) + (if Matches(o, query) then {k} else {})
  {
    var obs' := obs[k := obs[k] + [o]];
    forall i: nat ensures i in Highlighted(obs', query) <==>
      i in Highlighted(obs, query) + (if Matches(o, query) then {k} else {})
    {
      if i == k {
        if AnyMatch(obs[k], query) {
          var m :| 0 <= m < |obs[k]| && Matches(obs[k][m], query);
          assert obs'[k][m] == obs[k][m];
        }
        if AnyMatch(obs'[k], query) && !Matches(o, query) {
          var m :| 0 <= m < |obs'[k]| && Matches(obs'[k][m], query);
          assert m < |obs[k]| && obs'[k][m] == obs[k][m];
        }
        if Matches(o, query) {
          assert obs'[k][|obs[k]|] == o;
        }
      }
    }
  }
}
