/**
 The redirect map `recipientsMerged` (loser id to winner id) and the chain
 following of `getActualRecipientId`.

 The map alone does not show that following it ends. Each entry therefore
 carries a ghost rank, the merge clock at the time it was added, and the
 ranks strictly increase along every chain. A new entry `loser -> winner`
 keeps this ordering when `winner` is not itself a key, which is what the
 merge code guarantees.
 */
module Redirects {
  import opened RecipientRows

  /** Every key has a rank below `clock`, and a chain step leads to a key of
      strictly higher rank. */
  ghost predicate Ranked(merged: map<RecipientId, RecipientId>, rank: map<RecipientId, nat>, clock: nat) {
    forall k :: k in merged ==>
      && k in rank && rank[k] < clock
      && (merged[k] in merged ==> merged[k] in rank && rank[k] < rank[merged[k]])
  }

  /** Where the chain from `id` ends: the first id that is not a key. */
  ghost function Resolve(merged: map<RecipientId, RecipientId>, rank: map<RecipientId, nat>, clock: nat, id: RecipientId): (r: RecipientId)
    requires Ranked(merged, rank, clock)
    ensures r !in merged
    ensures id !in merged ==> r == id
    decreases if id in merged then clock - rank[id] else 0
  {
    if id in merged then Resolve(merged, rank, clock, merged[id]) else id
  }

  /** Recording `loser` as merged into a `winner` that is itself no key keeps
      the ranking, with the new entry ranked at the current clock. */
  lemma RedirectKeepsRanked(merged: map<RecipientId, RecipientId>, rank: map<RecipientId, nat>, clock: nat, loser: RecipientId, winner: RecipientId)
    requires Ranked(merged, rank, clock)
    requires winner !in merged && winner != loser
    ensures Ranked(merged[loser := winner], rank[loser := clock], clock + 1)
  {
  }

  /** After recording `loser -> winner`, every chain that used to end at
      `loser` ends at `winner`, and every other chain ends where it did. */
  lemma {:induction false} RedirectRetargets(merged: map<RecipientId, RecipientId>, rank: map<RecipientId, nat>, clock: nat,
                                             loser: RecipientId, winner: RecipientId, id: RecipientId)
    requires Ranked(merged, rank, clock)
    requires winner !in merged && winner != loser && loser !in merged
    ensures Ranked(merged[loser := winner], rank[loser := clock], clock + 1)
    ensures Resolve(merged[loser := winner], rank[loser := clock], clock + 1, id) ==
      if Resolve(merged, rank, clock, id) == loser then winner else Resolve(merged, rank, clock, id)
    decreases if id in merged then clock - rank[id] else 0
  {
    RedirectKeepsRanked(merged, rank, clock, loser, winner);
    if id in merged {
      RedirectRetargets(merged, rank, clock, loser, winner, merged[id]);
    }
  }

  /** Where a chain ends depends on the map only, not on the ranks chosen. */
  lemma {:induction false} ResolveIgnoresRank(merged: map<RecipientId, RecipientId>, rank: map<RecipientId, nat>, clock: nat,
                                              rank': map<RecipientId, nat>, clock': nat, id: RecipientId)
    requires Ranked(merged, rank, clock) && Ranked(merged, rank', clock')
    ensures Resolve(merged, rank, clock, id) == Resolve(merged, rank', clock', id)
    decreases if id in merged then clock - rank[id] else 0
  {
    if id in merged {
      ResolveIgnoresRank(merged, rank, clock, rank', clock', merged[id]);
    }
  }
}
