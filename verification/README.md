# Community Digital Voting System — a Dafny model of the mock store and the proposal browser

The application lets residents create proposals, vote Yes/No/Abstain on them
before a deadline, comment on them, follow one another and earn a community
score. The proposals live in an in-memory mock database in `services/api.ts`.
The main page (`App.tsx`) filters and sorts the list. The create-proposal form
(`components/CreateProposalModal.tsx`) validates its fields and parses the
comma-separated tag field.

This project models those three pieces as pure Dafny functions and proves
properties about them:

- `Store` (store.dfy) holds the records of the mock database in an immutable
  `Store` value. It also defines the id counters, the `find`-by-id lookup and
  the invariant `Valid`. `Valid` says that:
  - the ids of each kind of record are unique;
  - proposal, vote, comment and notification ids are below their kind's
    counter (users have no counter);
  - there is at most one vote per voter and proposal;
  - the two stored sides of every follow agree.
- `Seed` (seed.dfy) is the database's initial contents, with every timestamp
  taken relative to the load time `now`.
- `Lifecycle` (lifecycle.dfy) covers:
  - the expiry check that `getProposals` and `getProposalById` run;
  - vote tallies and comment counts;
  - the two read operations themselves.
- `Commands` (commands.dfy) covers:
  - `addNotification`, `createProposal`, `castVote`, `addComment`;
  - `deleteProposal` with its cascade;
  - `updateProposalStatus`;
  - `getNotifications` and `markNotificationAsRead`.
- `Social` (social.dfy) covers `getUserById`, `getLeaderboard`, `followUser`
  and `unfollowUser`.
- `Browse` (browse.dfy) covers the tag toggle and `filteredAndSortedProposals`
  of the main page.
- `ProposalForm` (proposal_form.dfy) covers `handleSubmit` and the tag
  parsing `split(',')`, `trim()` and `filter(Boolean)`.
- `Seqs` (seqs.dfy) and `Results` (results.dfy) are the generic pieces:
  - `Filter` and `Map`;
  - the subsequence relation;
  - a stable insertion sort with its stability lemma (`Array.prototype.sort`
    is stable);
  - `Option` and `Result`.

Each store operation is a pure function of the store and its arguments. Time
is an integer number of milliseconds. The operations that read the clock take
the current time `now` as one more argument. These are the expiry check, the
operations that create a record, and `followUser`, whose notification carries a
timestamp. What an operation returns depends on its kind:

- Commands that hand back a value return the new store together with that
  value (`Reply`). When the JavaScript throws, they return an error
  (`Result.Err`). These are `createProposal`, `castVote`, `addComment`,
  `updateProposalStatus`, and the two reads that also expire proposals.
- Commands whose JavaScript returns nothing return only the new store. These
  are `deleteProposal`, `markNotificationAsRead`, `followUser` and
  `unfollowUser`.
- Pure queries return only their answer. These are `getUserById`,
  `getLeaderboard` and `getNotifications`.

Every operation that changes the store preserves `Valid`.

In these places the model follows the code:

- A new proposal's voting window is seven days (`setDate(getDate() + 7)`),
  although the create-proposal form tells the user 48 hours.
- `deleteProposal` never reports an error. An id that no proposal, vote or
  comment carries changes nothing. Votes and comments left on a missing
  proposal still carry its id, so deleting that id removes them.
- `castVote` does not check that the proposal exists. The vote is stored
  anyway, and only the notification depends on the proposal existing.
- `handleSubmit` checks the title and description against the empty string
  without trimming. A title made only of spaces is accepted.

## Model

| member | source | states |
|---|---|---|
| `Store.IndexOfId` | services/api.ts:105 | `find` by id: the first position carrying the id, `None` exactly when no element carries it |
| `Seed.SeedValid` | services/api.ts:4-75 | the seeded database satisfies the store invariant: unique ids below the counters `{4, 10, 4, 3}`, one vote per voter and proposal, consistent follow lists |
| `Lifecycle.Reconcile` | services/api.ts:87-91 | each proposal is unchanged except that an Active one whose deadline is strictly before `now` becomes Expired; afterwards no Active proposal is overdue |
| `Lifecycle.ReconcileIdempotent` | services/api.ts:87-91 | running the expiry check twice at the same time is the same as running it once |
| `Lifecycle.ReconcileLater` | services/api.ts:87-91 | a check at an earlier time followed by one at a later time equals the later check alone |
| `Lifecycle.ReconcileTransitions` | services/api.ts:87-91 | the only status change the check makes is Active to Expired; Closed and Expired proposals are never touched |
| `Lifecycle.VotesOn` | services/api.ts:112 | exactly the votes on the proposal, each as often as stored, in stored order |
| `Lifecycle.OptionVotes` | services/api.ts:95-97 | exactly the votes on the proposal that chose the option, each as often as stored, in stored order |
| `Lifecycle.CommentsOn` | services/api.ts:99 | exactly the comments on the proposal, each as often as stored, in stored order |
| `Lifecycle.TallySum` | services/api.ts:94-98 | yes + no + abstain equals the number of votes on the proposal |
| `Lifecycle.View` | services/api.ts:92-100 | a listed proposal carries the stored record, for each option the number of its votes that chose it (so the three add up to its votes), and the number of its comments |
| `Lifecycle.GetProposals` | services/api.ts:85-101 | the store changes only by the expiry check; one entry per proposal in stored order, each with the per-option vote counts and the comment count of its id |
| `Lifecycle.GetProposalById` | services/api.ts:103-115 | `None` exactly when no proposal has the id, store untouched; otherwise only the first match is expiry-checked and it is returned with its votes and a newest-first permutation of its comments in which equal timestamps keep their stored order |
| `Lifecycle.DetailsAgreeWithList` | services/api.ts:92-113 | with unique ids, the detail view of a listed proposal shows the same record, as many votes as its tally and as many comments as its count |
| `Commands.AddNotification` | services/api.ts:79-81 | one unread notification with a fresh id is put in front; the older ones follow unchanged |
| `Commands.CreateProposal` | services/api.ts:117-125 | a fresh-id Active proposal due seven days after `now` goes in front of the list, a linked `new_proposal` notification goes in front, and votes, comments and users are untouched |
| `Commands.CreatedProposalListing` | services/api.ts:117-124 | until its deadline the new proposal is listed first, Active, with zero votes and zero comments, provided no stored vote or comment already used the fresh id |
| `Commands.CastVote` | services/api.ts:127-139 | rejected with AlreadyVoted exactly when the voter already voted on the proposal; otherwise the vote is appended with a fresh id, a `vote_cast` notification is added exactly when the proposal exists, and only the vote counter (and then the notification counter) advances |
| `Commands.SecondVoteRejected` | services/api.ts:129-131 | after a successful vote, a second vote by the same voter on the same proposal fails whatever its option |
| `Commands.CastVoteTally` | services/api.ts:132-133 | a successful vote adds one to its option on its proposal and changes no other count of any proposal |
| `Commands.AddComment` | services/api.ts:141-146 | the comment gets a fresh id and the time `now`, is appended, and nothing else changes but the counter |
| `Commands.AddCommentCount` | services/api.ts:143-144 | a new comment adds one to its proposal's comment count and to no other |
| `Commands.DeleteProposal` | services/api.ts:148-153 | no proposal, vote or comment with the id survives, everything else survives as often as it was stored and in its order; users, notifications and counters are untouched |
| `Commands.DeleteUnusedIdIsNoOp` | services/api.ts:148-153 | an id that no proposal, vote or comment carries changes nothing |
| `Commands.DeleteRemovesOrphanVotes` | services/api.ts:150-151 | deleting an id no proposal has still removes the votes cast on it, so the store changes |
| `Commands.DeleteProposalGone` | services/api.ts:148-153 | after the delete, the detail view finds nothing and the tally and comment count of the id are zero |
| `Commands.DeleteProposalKeepsOthers` | services/api.ts:150-152 | the delete leaves the tally and comment count of every other proposal as they were |
| `Commands.UpdateProposalStatus` | services/api.ts:155-161 | ProposalNotFound exactly when no proposal has the id; otherwise the first match gets the new status, from any status, and is returned |
| `Commands.UpdateStatusFrame` | services/api.ts:157-159 | with unique ids, the proposal with the id gets the status and every other proposal is unchanged |
| `Commands.GetNotifications` | services/api.ts:191-194 | a newest-first permutation of the notifications in which equal timestamps keep their stored order |
| `Commands.MarkNotificationAsRead` | services/api.ts:196-200 | the first notification with the id becomes read and nothing else changes; an unknown id changes nothing |
| `Commands.MarkReadIdempotent` | services/api.ts:196-200 | marking the same notification read twice equals marking it once |
| `Social.ProposalsBy` | services/api.ts:174 | exactly the proposals the user authored, each as often as stored, in stored order |
| `Social.VotesBy` | services/api.ts:175 | exactly the votes the user cast, each as often as stored, in stored order |
| `Social.GetUserById` | services/api.ts:168-177 | `None` exactly when no user has the id; otherwise the first such user with the number of proposals they authored and votes they cast |
| `Social.CastVoteCountsForVoter` | services/api.ts:175 | a successful vote raises the voter's `votesCast` by one and nobody else's |
| `Social.CreateProposalCountsForAuthor` | services/api.ts:174 | a new proposal raises its author's `proposalsCreated` by one and nobody else's |
| `Social.GetLeaderboard` | services/api.ts:179-189 | a permutation of the users, highest score first, each with its own statistics and score 5·proposals + votes + 2·followers |
| `Social.LeaderboardStable` | services/api.ts:188 | users with equal scores appear in user-list order |
| `Social.LeaderboardAgreesWithProfile` | services/api.ts:168-189 | with unique user ids, every leaderboard entry shows exactly the statistics `getUserById` reports for that user |
| `Social.FollowUser` | services/api.ts:202-213 | when both users exist and the follow is new, the follower gains the target in `following`, the target gains the follower in `followers`, and a `new_follower` notification is added; otherwise nothing changes |
| `Social.AddFollow` | services/api.ts:207-209 | the follower's `following` and the target's `followers` each grow by one id; every other user is unchanged |
| `Social.FollowPreservesConsistency` | services/api.ts:206-209 | adding both sides of a follow keeps the follow lists consistent |
| `Social.UnfollowUser` | services/api.ts:215-223 | when both users exist, the target leaves the follower's `following` and the follower leaves the target's `followers`, with no notification; otherwise nothing changes |
| `Social.RemoveFollow` | services/api.ts:219-222 | every occurrence of the target id leaves the follower's `following` and of the follower id leaves the target's `followers`; nothing else changes |
| `Social.UnfollowPreservesConsistency` | services/api.ts:219-222 | removing both sides of a follow keeps the follow lists consistent |
| `Social.FollowThenUnfollowRestoresUsers` | services/api.ts:202-223 | from a state where the follow is absent, following then unfollowing restores every user's lists |
| `Browse.ToggleTag` | App.tsx:97-99 | the tag becomes active exactly when it was not, every other tag keeps its state (and, on removal, its number of occurrences), and a new tag goes at the end |
| `Browse.ToggleTwice` | App.tsx:97-99 | toggling twice restores the set of active tags, and the exact list when the tag was not active |
| `Browse.Lower` | App.tsx:105 | no upper-case ASCII letter is left, each is replaced in place by its lower-case letter, every other character is kept, and the length is unchanged |
| `Browse.LowerIdempotent` | App.tsx:105 | lower-casing twice equals lower-casing once |
| `Browse.Includes` | App.tsx:105 | `includes` holds exactly when the needle occurs at some position of the haystack |
| `Browse.ByStatus` | App.tsx:103 | exactly the proposals matching the status filter, each as often as listed, in order |
| `Browse.ByTags` | App.tsx:104 | exactly the proposals carrying every active tag, each as often as listed, in order |
| `Browse.BySearch` | App.tsx:105 | exactly the proposals whose lower-cased title or description contains the lower-cased term, each as often as listed, in order |
| `Browse.AllStatusesKeepsAll` | App.tsx:103 | the `all` status filter keeps the whole list |
| `Browse.NoTagsKeepsAll` | App.tsx:104 | with no active tag the whole list is kept |
| `Browse.EmptySearchKeepsAll` | App.tsx:105 | the empty search term keeps the whole list |
| `Browse.Filtered` | App.tsx:102-105 | exactly the proposals passing all three filters, each as often as listed, in order |
| `Browse.EndingSoonCompareInconsistent` | App.tsx:110-114 | as written, two non-Active proposals each compare as coming after the other |
| `Browse.EndingSoonOrderConsistent` | App.tsx:110-114 | the corrected comparator agrees with the written one whenever an Active proposal is involved, is antisymmetric in sign and is transitive |
| `Browse.SortEndingSoon` | App.tsx:110-114 | a permutation ordered by the corrected comparator: Active proposals first, earliest deadline first, then the others in listed order |
| `Browse.EndingSoonStable` | App.tsx:110-114 | Active proposals with equal deadlines keep their listed order |
| `Browse.FilterAndSort` | App.tsx:101-117 | exactly the proposals passing the three filters, each as often as listed; newest first, or in ending-soon order, or in listed order, depending on the sort option |
| `Browse.NewestIsStable` | App.tsx:106-109 | under `newest`, proposals created at the same moment keep their listed order |
| `ProposalForm.Split` | components/CreateProposalModal.tsx:27 | one more piece than there are commas, none containing a comma |
| `ProposalForm.JoinSplit` | components/CreateProposalModal.tsx:27 | joining the pieces with commas gives back the field text |
| `ProposalForm.SplitJoin` | components/CreateProposalModal.tsx:27 | splitting comma-free pieces joined by commas gives back the pieces |
| `ProposalForm.Trim` | components/CreateProposalModal.tsx:27 | the result is the input minus its leading and trailing whitespace; it neither starts nor ends with whitespace and is empty exactly when the input is all whitespace |
| `ProposalForm.TrimIdempotent` | components/CreateProposalModal.tsx:27 | trimming twice equals trimming once |
| `ProposalForm.ParseTags` | components/CreateProposalModal.tsx:27 | the tags are the trimmed pieces that are not empty, in order; every piece that is not all whitespace appears |
| `ProposalForm.ParseTagsConcat` | components/CreateProposalModal.tsx:27 | the tags of `a,b` are the tags of `a` followed by those of `b` |
| `ProposalForm.Submit` | components/CreateProposalModal.tsx:20-28 | refused exactly when the title or description is empty; otherwise both fields are passed as typed and the tags are the parsed tag field: non-empty, trimmed, no more than commas + 1 of them |

## Left out

- The artificial `delay` and the asynchrony of every API call are left out. Each call is one atomic step; no interleaving is modelled.
- Dates are modelled as integer milliseconds, not ISO strings. The seven-day window is `7 * 86_400_000` ms. `setDate` would shift the deadline by an hour across a daylight-saving change; that is not modelled.
- `createProposal` reads the clock three times: for the deadline, for `createdAt` and for the notification's timestamp. All three use the same `now` here.
- Lifecycle.Reconcile: checks the whole list against one `now`. `getProposals` reads the clock once per proposal inside its expiry loop, so a proposal whose deadline passes while the loop runs is not modelled.
- The comments seeded with `new Date()` are stamped with the load time `now`.
- Notification message texts are not modelled. A notification keeps its type, link, read flag and timestamp.
- `getUserByName` (the login lookup) and the login, admin and display-name checks of the UI are not part of this model.
- `services/ai.ts`, `contexts/ToastContext.tsx` and the presentational components are not part of this model. The error toast of `handleSubmit` is modelled as the error `TitleAndDescriptionRequired`.
- `handleSubmit` after validation is not modelled: the `isSubmitting` flag, the awaited `onSubmit`, the form reset and the error toast on failure. The model stops at the draft handed to `onSubmit`.
- Browse.Lower: models `toLowerCase` on ASCII letters only. Full Unicode case mapping, which can change a string's length, is not modelled.
- `ProposalForm.Split` and `Trim` work on code points. JavaScript strings are UTF-16, which makes no difference for splitting on ',' or trimming.
- The order that `Array.prototype.sort` gives the as-written ending-soon comparator is implementation-defined and not modelled. The list view uses the corrected comparator instead (see Findings).

## Findings

| source | as written | input that shows it | evidently intended | confidence | as-written member | corrected member |
|---|---|---|---|---|---|---|
| App.tsx:110-114 | the `ending_soon` comparator returns 1 whenever `a` is not Active, before looking at `b` | any two proposals that are both Closed or Expired: `compare(a, b) = 1` and `compare(b, a) = 1`, so the comparator is inconsistent and the order `sort` gives them is implementation-defined | Active proposals first, earliest deadline first; non-Active proposals tie and keep their listed order | medium, not executed | `Browse.EndingSoonCompareInconsistent` | `Browse.SortEndingSoon` |
