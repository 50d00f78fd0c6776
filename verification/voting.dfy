/** The voting service: the single write path to the Votes table and the
    results query. The candidate registry is a constant of the service, and
    the clock, the key the database assigns and the outcome of the save are
    parameters of a cast. */
module Voting {
  import opened Votes
  import opened Tallying

  /** What a cast reports, and the store it leaves behind. */
  datatype CastOutcome = CastOutcome(accepted: bool, store: seq<Vote>)

  /** `Votes.Add(vote)` followed by `SaveChangesAsync()`. The save is rejected
      when the unique index on UserId would be violated; `storageOk` false stands
      for a save that throws `DbUpdateException` for any other reason. Either
      way nothing is written and the handler reports false. */
  function Insert(votes: seq<Vote>, vote: Vote, storageOk: bool): (o: CastOutcome)
    ensures !o.accepted ==> o.store == votes
    ensures o.accepted ==> storageOk && o.store == votes + [vote]
    ensures HasVoted(votes, vote.userId) ==> !o.accepted
    ensures OneVotePerUser(votes) ==> OneVotePerUser(o.store)
  {
    if storageOk && !HasVoted(votes, vote.userId) then CastOutcome(true, votes + [vote])
    else CastOutcome(false, votes)
  }

  /** `CastVoteAsync(userId, candidate)` against a store: the already-voted check,
      then the registry check, then the insert. */
  function Cast(votes: seq<Vote>, registry: seq<string>, userId: string, candidate: string,
                id: int, now: int, storageOk: bool): (o: CastOutcome)
    ensures HasVoted(votes, userId) ==> o == CastOutcome(false, votes)
    ensures candidate !in registry ==> o == CastOutcome(false, votes)
    ensures !storageOk ==> o == CastOutcome(false, votes)
    ensures o.accepted <==> !HasVoted(votes, userId) && candidate in registry && storageOk
    ensures o.accepted ==> o.store == votes + [Vote(id, userId, candidate, now)]
    ensures OneVotePerUser(votes) ==> OneVotePerUser(o.store)
    ensures AllForRegistry(votes, registry) ==> AllForRegistry(o.store, registry)
  {
    if HasVoted(votes, userId) then CastOutcome(false, votes)
    else if candidate !in registry then CastOutcome(false, votes)
    else Insert(votes, Vote(id, userId, candidate, now), storageOk)
  }

  /** After an accepted cast the user has voted, their vote is the one just
      cast, and any further cast by them is rejected with nothing written. */
  lemma CastThenQueries(votes: seq<Vote>, registry: seq<string>, userId: string, candidate: string,
                        id: int, now: int, storageOk: bool,
                        candidate': string, id': int, now': int, storageOk': bool)
    requires Cast(votes, registry, userId, candidate, id, now, storageOk).accepted
    ensures var after := Cast(votes, registry, userId, candidate, id, now, storageOk).store;
      && HasVoted(after, userId)
      && UserVote(after, userId) == Some(Vote(id, userId, candidate, now))
      && Cast(after, registry, userId, candidate', id', now', storageOk') == CastOutcome(false, after)
  {
    var vote := Vote(id, userId, candidate, now);
    var after := votes + [vote];
    assert after[|votes|] == vote;
    var r := UserVote(after, userId);
    var i :| 0 <= i < |after| && after[i] == r.value && !HasVoted(after[..i], userId);
  }

  /** A successful cast for `candidate` raises that candidate's result by
      exactly one and leaves every other result, and the set of keys, as it was. */
  lemma CastTallyFrame(votes: seq<Vote>, registry: seq<string>, userId: string, candidate: string,
                       id: int, now: int, storageOk: bool)
    requires Cast(votes, registry, userId, candidate, id, now, storageOk).accepted
    ensures var before := Tally(votes, registry);
      var after := Tally(Cast(votes, registry, userId, candidate, id, now, storageOk).store, registry);
      && after.Keys == before.Keys
      && candidate in before && after[candidate] == before[candidate] + 1
      && forall c | c in before && c != candidate :: after[c] == before[c]
  {
    TallyAppend(votes, Vote(id, userId, candidate, now), registry);
  }

  class VotingService {
    /** The candidate registry: fixed for the life of the service. */
    const candidates: seq<string>
    /** The Votes table. */
    var votes: seq<Vote>

    ghost predicate Valid()
      reads this
    {
      OneVotePerUser(votes)
    }

    /** A service over an existing store, which the unique index keeps at one row per user. */
    constructor (candidates: seq<string>, votes: seq<Vote>)
      requires OneVotePerUser(votes)
      ensures Valid()
      ensures this.candidates == candidates && this.votes == votes
    {
      this.candidates := candidates;
      this.votes := votes;
    }

    /** `_context.Votes.Add(vote)` then `SaveChangesAsync()`. */
    method SaveVote(vote: Vote, storageOk: bool) returns (saved: bool)
      requires Valid()
      modifies this
      ensures Valid()
      ensures saved == Insert(old(votes), vote, storageOk).accepted
      ensures votes == Insert(old(votes), vote, storageOk).store
    {
      if !storageOk || HasVoted(votes, vote.userId) {
        return false;
      }
      votes := votes + [vote];
      saved := true;
    }

    /** `CastVoteAsync`: `now` is the clock reading stamped on the row, `id`
        the key the database assigns, `storageOk` whether the save succeeds. */
    method CastVote(userId: string, candidate: string, id: int, now: int, storageOk: bool)
      returns (accepted: bool)
      requires Valid()
      modifies this
      ensures Valid()
      ensures accepted == Cast(old(votes), candidates, userId, candidate, id, now, storageOk).accepted
      ensures votes == Cast(old(votes), candidates, userId, candidate, id, now, storageOk).store
    {
      if HasVoted(votes, userId) {
        return false;
      }
      if candidate !in candidates {
        return false;
      }
      var vote := Vote(id, userId, candidate, now);
      accepted := SaveVote(vote, storageOk);
    }

    /** `GetVoteResultsAsync`: the grouped counts, then a zero entry for every
        registry candidate the grouping did not produce. */
    method GetVoteResults() returns (results: map<string, nat>)
      ensures results == Tally(votes, candidates)
    {
      results := GroupCounts(votes);
      for i := 0 to |candidates|
        invariant results.Keys == Candidates(votes) + Registered(candidates[..i])
        invariant forall c | c in results :: results[c] == CountFor(votes, c)
      {
        var candidate := candidates[i];
        if candidate !in results {
          results := results[candidate := 0];
        }
        assert candidates[..i + 1] == candidates[..i] + [candidate];
      }
      assert candidates[..|candidates|] == candidates;
    }
  }
}
