/** The Votes table: one row per cast vote, and the read-only queries the
    voting service runs against it (`Any`, `FirstOrDefault`, `Count`). */
module Votes {

  datatype Option<+T> = None | Some(value: T)

  /** One row of the Votes table. `votedAt` stands for the UTC timestamp the
      service stamps on the row; `id` is the key the database assigns. */
  datatype Vote = Vote(id: int, userId: string, candidate: string, votedAt: int)

  /** The unique index on UserId: no two rows of the store belong to the same
      user, so no row's user has another row before or after it. */
  predicate OneVotePerUser(votes: seq<Vote>)
    ensures OneVotePerUser(votes) ==> forall i | 0 <= i < |votes| ::
      !HasVoted(votes[..i], votes[i].userId) && !HasVoted(votes[i + 1..], votes[i].userId)
  {
    forall i, j | 0 <= i < |votes| && 0 <= j < |votes| && votes[i].userId == votes[j].userId :: i == j
  }

  /** Every row names a candidate of the registry. */
  predicate AllForRegistry(votes: seq<Vote>, registry: seq<string>)
  {
    forall v | v in votes :: v.candidate in registry
  }

  /** The candidates that have at least one row in the store. */
  function Candidates(votes: seq<Vote>): set<string>
  {
    set v | v in votes :: v.candidate
  }

  /** The set of registry names. */
  function Registered(registry: seq<string>): set<string>
  {
    set c | c in registry
  }

  /** `HasUserVotedAsync`: whether any row has this user id. */
  function HasVoted(votes: seq<Vote>, userId: string): (r: bool)
    ensures r <==> exists i | 0 <= i < |votes| :: votes[i].userId == userId
  {
    if votes == [] then false
    else votes[0].userId == userId || HasVoted(votes[1..], userId)
  }

  /** `GetUserVoteAsync`: a row with this user id, if there is one. The query
      names no order; the model scans the rows in store order and returns the
      first match, which under the unique index is the user's only row
      (`UserVoteIsTheVote`). */
  function UserVote(votes: seq<Vote>, userId: string): (r: Option<Vote>)
    ensures r.None? <==> !HasVoted(votes, userId)
    ensures r.Some? ==> r.value.userId == userId
    ensures r.Some? ==> exists i | 0 <= i < |votes| :: votes[i] == r.value && !HasVoted(votes[..i], userId)
  {
    if votes == [] then None
    else if votes[0].userId == userId then
      assert votes[..0] == [];
      Some(votes[0])
    else
      var r := UserVote(votes[1..], userId);
      if r.Some? then
        var i :| 0 <= i < |votes[1..]| && votes[1..][i] == r.value && !HasVoted(votes[1..][..i], userId);
        assert votes[..i + 1] == [votes[0]] + votes[1..][..i];
        r
      else r
  }

  /** The users that have a row in the store. */
  function Voters(votes: seq<Vote>): set<string>
  {
    set v | v in votes :: v.userId
  }

  /** `GetTotalVotesAsync`: the number of rows. It is zero exactly when nobody
      has voted, and under the unique index it is the number of users who have. */
  function TotalVotes(votes: seq<Vote>): (n: nat)
    ensures n == 0 <==> forall u :: !HasVoted(votes, u)
    ensures OneVotePerUser(votes) ==> n == |Voters(votes)|
  {
    assert votes != [] ==> HasVoted(votes, votes[0].userId);
    if OneVotePerUser(votes) then
      VotersCount(votes);
      |votes|
    else
      |votes|
  }

  /** Under the unique index there are as many rows as distinct voters. */
  lemma {:induction false} VotersCount(votes: seq<Vote>)
    requires OneVotePerUser(votes)
    ensures |Voters(votes)| == |votes|
  {
    if votes != [] {
      var rest := votes[1..];
      assert votes == [votes[0]] + rest;
      assert Voters(votes) == {votes[0].userId} + Voters(rest);
      assert OneVotePerUser(rest) by {
        forall i, j | 0 <= i < |rest| && 0 <= j < |rest| && rest[i].userId == rest[j].userId
          ensures i == j
        {
          assert votes[i + 1].userId == votes[j + 1].userId;
        }
      }
      assert votes[0].userId !in Voters(rest);
      VotersCount(rest);
    }
  }

  /** The number of rows naming `candidate`: the size of its group in `GroupBy(v => v.Candidate)`. */
  function CountFor(votes: seq<Vote>, candidate: string): (n: nat)
    ensures n <= |votes|
    ensures n == 0 <==> candidate !in Candidates(votes)
  {
    if votes == [] then 0
    else
      CandidatesCons(votes);
      (if votes[0].candidate == candidate then 1 else 0) + CountFor(votes[1..], candidate)
  }

  lemma CandidatesCons(votes: seq<Vote>)
    requires votes != []
    ensures Candidates(votes) == {votes[0].candidate} + Candidates(votes[1..])
  {
    assert votes == [votes[0]] + votes[1..];
  }

  lemma CandidatesAppend(votes: seq<Vote>, v: Vote)
    ensures Candidates(votes + [v]) == Candidates(votes) + {v.candidate}
  {
    assert forall w :: w in votes + [v] <==> w in votes || w == v;
  }

  /** Appending a row raises its candidate's count by one and no other. */
  lemma {:induction false} CountForAppend(votes: seq<Vote>, v: Vote, candidate: string)
    ensures CountFor(votes + [v], candidate) == CountFor(votes, candidate) + (if v.candidate == candidate then 1 else 0)
  {
    if votes != [] {
      assert (votes + [v])[1..] == votes[1..] + [v];
      CountForAppend(votes[1..], v, candidate);
    }
  }

  /** Under the unique index, the row `GetUserVoteAsync` finds is the user's only row. */
  lemma UserVoteIsTheVote(votes: seq<Vote>, i: int)
    requires OneVotePerUser(votes)
    requires 0 <= i < |votes|
    ensures UserVote(votes, votes[i].userId) == Some(votes[i])
  {
    var r := UserVote(votes, votes[i].userId);
    assert HasVoted(votes, votes[i].userId);
    var k :| 0 <= k < |votes| && votes[k] == r.value && !HasVoted(votes[..k], votes[i].userId);
  }
}
