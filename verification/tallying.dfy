/** The results side of the voting service: the database's
    `GroupBy(v => v.Candidate)` count, and the complete tally with a zero for
    every registry candidate that has no votes yet. */
module Tallying {
  import opened Votes
  import opened MapSums

  /** The `GroupBy(...).Select(...).ToDictionaryAsync(...)` query: one entry per
      candidate that occurs in the store, mapped to the size of its group. */
  function GroupCounts(votes: seq<Vote>): (counts: map<string, nat>)
    ensures counts.Keys == Candidates(votes)
    ensures forall c | c in counts :: counts[c] == CountFor(votes, c) && counts[c] > 0
  {
    if votes == [] then map[]
    else
      var rest := GroupCounts(votes[1..]);
      var c := votes[0].candidate;
      CandidatesCons(votes);
      rest[c := (if c in rest then rest[c] else 0) + 1]
  }

  /** The dictionary `GetVoteResultsAsync` returns for a store and a registry:
      every registry candidate is a key, and no count exceeds the total. */
  function Tally(votes: seq<Vote>, registry: seq<string>): (t: map<string, nat>)
    ensures Registered(registry) <= t.Keys
    ensures forall c | c in t :: t[c] <= TotalVotes(votes)
  {
    map c | c in Candidates(votes) + Registered(registry) :: CountFor(votes, c)
  }

  /** Every registry candidate is a key of the results; every key is a registry
      candidate or occurs in the store; a key with no rows maps to zero; and when
      every row names a registry candidate the keys are exactly the registry. */
  lemma TallyCoversRegistry(votes: seq<Vote>, registry: seq<string>)
    ensures forall c | c in registry :: c in Tally(votes, registry)
    ensures forall c | c in Tally(votes, registry) :: c in registry || c in Candidates(votes)
    ensures forall c | c in Tally(votes, registry) && c !in Candidates(votes) :: Tally(votes, registry)[c] == 0
    ensures AllForRegistry(votes, registry) ==> Tally(votes, registry).Keys == Registered(registry)
  {
  }

  /** A new row adds its candidate as a key if it was missing, raises that
      candidate's entry by one, and leaves every other entry as it was. */
  lemma TallyAppend(votes: seq<Vote>, v: Vote, registry: seq<string>)
    ensures Tally(votes + [v], registry).Keys == Tally(votes, registry).Keys + {v.candidate}
    ensures Tally(votes + [v], registry)[v.candidate] == CountFor(votes, v.candidate) + 1
    ensures forall c | c in Tally(votes, registry) && c != v.candidate ::
      Tally(votes + [v], registry)[c] == Tally(votes, registry)[c]
  {
    CandidatesAppend(votes, v);
    forall c | c in Tally(votes + [v], registry)
      ensures Tally(votes + [v], registry)[c]
           == if c == v.candidate then CountFor(votes, c) + 1 else Tally(votes, registry)[c]
    {
      CountForAppend(votes, v, c);
    }
  }

  /** The counts in the results add up to `GetTotalVotesAsync`. */
  lemma {:induction false} TallySum(votes: seq<Vote>, registry: seq<string>)
    ensures MapSum(Tally(votes, registry)) == TotalVotes(votes)
  {
    if votes == [] {
      MapSumZeros(Tally(votes, registry));
    } else {
      var init, last := votes[..|votes| - 1], votes[|votes| - 1];
      assert votes == init + [last];
      TallySum(init, registry);
      TallyAppend(init, last, registry);
      MapSumChanged(Tally(init, registry), Tally(votes, registry), last.candidate);
    }
  }

  /** With no votes cast, the results hold exactly the registry, every count zero. */
  lemma TallyOfEmptyStore(registry: seq<string>)
    ensures Tally([], registry).Keys == Registered(registry)
    ensures forall c | c in Tally([], registry) :: Tally([], registry)[c] == 0
    ensures MapSum(Tally([], registry)) == 0
  {
    TallySum([], registry);
  }
}
