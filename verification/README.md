# Voting service model

A Dafny model of the vote-casting and tallying core of a single-vote-per-user
election web application. The Votes table is a sequence of `Vote` rows kept at
one row per user (the unique index on `UserId`); the candidate registry
(`VoteOptions.Candidates`) is a constant sequence of names fixed when the
service is built; `VotingService` is a class over the table with the
state-changing `CastVote` and the looping `GetVoteResults`, while the read-only
queries (`HasUserVotedAsync`, `GetUserVoteAsync`, `GetTotalVotesAsync`) are
functions over the table.

Files:

- `votes.dfy`, module `Votes`: the `Vote` record, the one-vote-per-user
  invariant, and the read-only queries over the table.
- `mapsums.dfy`, module `MapSums`: the sum of a dictionary's values and how
  it changes when one entry changes.
- `tallying.dfy`, module `Tallying`: the database's group-by count, the
  complete results dictionary `Tally`, and the lemmas that the counts add up
  to the total and that a new row changes exactly one count.
- `voting.dfy`, module `Voting`: the insert (`Add` + `SaveChangesAsync`) and
  the cast as specification functions, the lemmas about what a successful
  cast leaves behind, and the `VotingService` class whose methods are proved
  against those functions.

The clock reading (`DateTime.UtcNow`), the key the database assigns to a new
row and whether `SaveChangesAsync` succeeds are parameters of `CastVote`
(`now`, `id`, `storageOk`). The save is modelled as failing when the row would break the unique index on
`UserId` or when `storageOk` is false, which stands for a save that throws
`DbUpdateException`; in both cases it returns false and writes nothing, as the
`DbUpdateException` handler does.

## Model

| member | source | states |
|---|---|---|
| Votes.OneVotePerUser | VotingApp/Data/ApplicationDbContext.cs:27-30 | the unique index on UserId: no two rows share a user, so no row's user has another row before or after it |
| Votes.TotalVotes | VotingApp/Services/VotingService.cs:90-93 | the number of rows is zero exactly when nobody has voted, and under the unique index equals the number of distinct users who have voted |
| Votes.VotersCount | VotingApp/Data/ApplicationDbContext.cs:27-30 | under the unique index there are as many rows as distinct voters |
| Votes.HasVoted | VotingApp/Services/VotingService.cs:28-31 | true exactly when some row of the store has the given user id |
| Votes.UserVote | VotingApp/Services/VotingService.cs:95-98 | none exactly when the user has not voted; otherwise a row of the store with that user id (the query names no order: the model returns the first in store order, which under the unique index is the user's only row, see `UserVoteIsTheVote`) |
| Votes.UserVoteIsTheVote | VotingApp/Data/ApplicationDbContext.cs:27-30 | under the unique index on UserId, the vote found for a user is that user's only row |
| Votes.CountFor | VotingApp/Services/VotingService.cs:73-76 | the size of a candidate's group is at most the store size, and zero exactly when no row names the candidate |
| Votes.CountForAppend | VotingApp/Services/VotingService.cs:73-76 | appending a row raises its candidate's group size by one and no other candidate's |
| Tallying.GroupCounts | VotingApp/Services/VotingService.cs:73-76 | the grouped query has one key per candidate that occurs in the store, each mapped to that candidate's (positive) number of rows |
| Tallying.Tally | VotingApp/Services/VotingService.cs:71-88 | the results dictionary: every registry candidate is a key and no count exceeds the total number of votes |
| Tallying.TallyCoversRegistry | VotingApp/Services/VotingService.cs:71-88 | every registry candidate is a key; every key is a registry candidate or occurs in the store; keys with no rows map to 0; when every row names a registry candidate the keys are exactly the registry |
| Tallying.TallyAppend | VotingApp/Services/VotingService.cs:73-85 | a new row raises its candidate's result by one (adding the key if missing) and leaves every other result unchanged |
| Tallying.TallySum | VotingApp/Services/VotingService.cs:71-93 | the values of the results dictionary sum to the total number of votes |
| Tallying.TallyOfEmptyStore | VotingApp/Services/VotingService.cs:78-85 | with no votes the results hold exactly the registry, each mapped to 0, summing to 0 |
| Voting.Insert | VotingApp/Services/VotingService.cs:49-68 | a failed save leaves the store unchanged; a successful one appends exactly the new row; a row for a user who already has one is never saved; the unique index is preserved |
| Voting.Cast | VotingApp/Services/VotingService.cs:33-69 | a user who has voted is rejected with no change, whatever the candidate; a candidate not exactly in the registry is rejected with no change; a failed save returns false with no change; the cast is accepted exactly when all three checks pass, and then the store is the old store plus the one new row; one vote per user and registry-only candidates are preserved |
| Voting.CastThenQueries | VotingApp/Services/VotingService.cs:28-40 | after an accepted cast the user has voted, the user's vote is the row just cast (with its candidate), and a second cast by the same user is rejected and writes nothing |
| Voting.CastTallyFrame | VotingApp/Services/VotingService.cs:49-85 | after an accepted cast for a candidate its result is one higher, every other result is unchanged, and the key set is unchanged |
| Voting.VotingService.constructor | VotingApp/Services/VotingService.cs:22-26 | the service starts over a store that already satisfies the unique index, with the given registry |
| Voting.VotingService.SaveVote | VotingApp/Services/VotingService.cs:58-59 | the new store and the reported result are those of `Insert`; the unique index is kept |
| Voting.VotingService.CastVote | VotingApp/Services/VotingService.cs:33-69 | the reported result and the new store are those of `Cast` on the old store; the unique index is kept |
| Voting.VotingService.GetVoteResults | VotingApp/Services/VotingService.cs:71-88 | the dictionary built by the group-by followed by the zero-filling loop over the registry is exactly `Tally` of the store and registry |

## Left out

- `GetTotalVotersAsync` (VotingApp/Services/VotingService.cs:100-103): it counts the user accounts of the identity store, which is not part of this model.
- Concurrency: the check-then-insert race between simultaneous requests is not modelled; the unique index's rejection of a racing insert appears only as a save that fails and writes nothing.
- The clock, the database-generated `Id` and the outcome of `SaveChangesAsync` are inputs, not computed; logging calls have no modelled effect.
- After a failed `SaveChangesAsync` the entity stays in the context's change tracker; the model treats each cast as starting from the stored rows only.
- The `Vote` row's navigation property to the user account, and the cascade delete of votes with their user, are not modelled (no user accounts in the model).
- Voting.VotingService.CastVote: requests are handled one at a time, so the statement that concurrent casts by one user yield exactly one success holds here only in its sequential form (`CastThenQueries`).
- Collation: the user-id lookups (`AnyAsync`, `FirstOrDefaultAsync`) and the `GroupBy` on candidate run as SQL in the database, which compares strings under its collation (MySQL's default ignores case and accents); only the registry check and `ContainsKey` are exact comparisons. The model uses exact equality throughout, so it agrees with the source only when user ids, and the registry names, are pairwise distinct under that collation (with "Jose" and "José" in the registry, the source groups their votes under one key).
- Exceptions the service does not catch are not modelled: a failure of the already-voted query (outside the `try`), a failure of `SaveChangesAsync` that is not a `DbUpdateException` (cancellation, a connection that cannot be opened), and any failure of the results, total or user-vote queries all propagate to the caller; in the model every query is total and every failed save returns false.
- Controllers, views, view models, start-up and client-side script are outside the core and not part of this model.
