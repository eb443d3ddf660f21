/** The data the mock database starts from on every reload, with every
    timestamp relative to the load time `now`. */
module Seed {
  import opened Results
  import opened Store

  const Hari: string := "Hari G"
  const Arun: string := "Arun Kumar"
  const Priya: string := "Priya Sharma"
  const Rajesh: string := "Rajesh Patel"
  const Sunita: string := "Sunita Devi"
  const Vijay: string := "Vijay Singh"
  const Anjali: string := "Anjali Mehta"

  const GardenTitle: string := "Install a Community Garden in Central Park"
  const GardenText: string :=
    "This proposal suggests converting the underutilized northern section of Central Park into a community garden..."
  const MuralTitle: string := "Fund a new Public Art Mural Downtown"
  const MuralText: string :=
    "We propose commissioning a local artist to paint a large-scale mural on the side of the public library building..."
  const RecyclingTitle: string := "Upgrade the City's Recycling Program"
  const RecyclingText: string :=
    "This proposal aims to expand our current recycling program to include glass and compostable materials..."

  const GardenPraise: string := "Great idea! I'd love to have a place to grow vegetables."
  const GardenWorry: string := "I'm concerned about the maintenance costs. Who will manage it?"
  const RecyclingPraise: string := "This is long overdue."

  function SeedUsers(now: int): seq<User> {
    [ User(1, Hari, now - 8 * DayMs, [2, 4], [2, 3]),
      User(2, Arun, now - 10 * DayMs, [1], [1]),
      User(3, Priya, now - 12 * DayMs, [1], []),
      User(4, Rajesh, now - 2 * DayMs, [], [1]),
      User(5, Sunita, now - 3 * DayMs, [], []),
      User(6, Vijay, now - 1 * DayMs, [], []),
      User(7, Anjali, now, [], []) ]
  }

  function SeedProposals(now: int): seq<Proposal> {
    [ Proposal(1, GardenTitle, GardenText, 1, Hari, ["community", "parks", "environment"],
               Active, now - 2 * DayMs, now + 3 * DayMs),
      Proposal(2, MuralTitle, MuralText, 2, Arun, ["arts", "funding", "community"],
               Active, now - 7 * DayMs, now + 5 * DayMs),
      Proposal(3, RecyclingTitle, RecyclingText, 3, Priya, ["environment", "infrastructure"],
               Closed, now - 10 * DayMs, now - 8 * DayMs) ]
  }

  function SeedVotes(): seq<Vote> {
    [ Vote(1, 1, 4, Rajesh, Yes),
      Vote(2, 1, 5, Sunita, Yes),
      Vote(3, 1, 6, Vijay, No),
      Vote(4, 2, 1, Hari, Yes),
      Vote(5, 3, 1, Hari, Yes),
      Vote(6, 3, 2, Arun, Yes),
      Vote(7, 3, 3, Priya, Yes),
      Vote(8, 3, 4, Rajesh, No),
      Vote(9, 3, 5, Sunita, Abstain) ]
  }

  /** The first two comments are stamped when the module loads, which the
      model takes to be `now`. */
  function SeedComments(now: int): seq<Comment> {
    [ Comment(1, 1, 4, Rajesh, GardenPraise, now),
      Comment(2, 1, 6, Vijay, GardenWorry, now),
      Comment(3, 3, 2, Arun, RecyclingPraise, now - 9 * DayMs) ]
  }

  /** Message texts are not part of the model. */
  function SeedNotifications(now: int): seq<Notification> {
    [ Notification(1, DeadlineSoon, Some(2), false, now),
      Notification(2, Welcome, None, true, now - 1 * DayMs) ]
  }

  /** `a` comes strictly before `b` in (proposal, voter) order. */
  predicate VoteKeyBefore(a: Vote, b: Vote) {
    a.proposalId < b.proposalId || (a.proposalId == b.proposalId && a.voterId < b.voterId)
  }

  /** Votes listed in strictly increasing (proposal, voter) order never
      repeat a pair. */
  lemma {:induction false} OrderedVotesDistinct(votes: seq<Vote>)
    requires forall i | 0 <= i < |votes| - 1 :: VoteKeyBefore(votes[i], votes[i + 1])
    ensures forall i, j | 0 <= i < j < |votes| :: VoteKeyBefore(votes[i], votes[j])
    ensures OneVotePerVoter(votes)
  {
    if |votes| > 1 {
      OrderedVotesDistinct(votes[1..]);
      forall j | 1 <= j < |votes|
        ensures VoteKeyBefore(votes[0], votes[j])
      {
        assert VoteKeyBefore(votes[1..][0], votes[1..][j - 1]) || j == 1;
      }
      forall i, j | 0 <= i < j < |votes|
        ensures VoteKeyBefore(votes[i], votes[j])
      {
        if i > 0 {
          assert VoteKeyBefore(votes[1..][i - 1], votes[1..][j - 1]);
        }
      }
    }
  }

  /** Ids numbered 1, 2, 3, ... in stored order are unique and below the
      next number. */
  lemma NumberedIds<T>(s: seq<T>, id: T -> int)
    requires forall i | 0 <= i < |s| :: id(s[i]) == i + 1
    ensures UniqueIds(s, id) && IdsBelow(s, id, |s| + 1)
  {
  }

  lemma SeedUsersValid(now: int)
    ensures UniqueIds(SeedUsers(now), UserId)
    ensures FollowConsistent(SeedUsers(now))
  {
    var us := SeedUsers(now);
    NumberedIds(us, UserId);
    forall i, j | 0 <= i < |us| && 0 <= j < |us|
      ensures us[i].id in us[j].followers <==> us[j].id in us[i].following
    {
      assert us[i].id == i + 1 && us[j].id == j + 1;
    }
  }

  lemma SeedProposalsValid(now: int)
    ensures UniqueIds(SeedProposals(now), ProposalId) && IdsBelow(SeedProposals(now), ProposalId, 4)
  {
    NumberedIds(SeedProposals(now), ProposalId);
  }

  lemma SeedVotesValid()
    ensures UniqueIds(SeedVotes(), VoteId) && IdsBelow(SeedVotes(), VoteId, 10)
    ensures OneVotePerVoter(SeedVotes())
  {
    NumberedIds(SeedVotes(), VoteId);
    OrderedVotesDistinct(SeedVotes());
  }

  lemma SeedCommentsValid(now: int)
    ensures UniqueIds(SeedComments(now), CommentId) && IdsBelow(SeedComments(now), CommentId, 4)
  {
    NumberedIds(SeedComments(now), CommentId);
  }

  lemma SeedNotificationsValid(now: int)
    ensures UniqueIds(SeedNotifications(now), NotificationId)
    ensures IdsBelow(SeedNotifications(now), NotificationId, 3)
  {
    NumberedIds(SeedNotifications(now), NotificationId);
  }

  /** The store as loaded at time `now`. */
  function SeedStore(now: int): Store {
    Store(SeedUsers(now), SeedProposals(now), SeedVotes(), SeedComments(now),
          SeedNotifications(now), NextIds(4, 10, 4, 3))
  }

  /** The store the application starts from satisfies the store invariant,
      with its counters one past the highest id of each kind. */
  lemma SeedValid(now: int)
    ensures Valid(SeedStore(now))
  {
    SeedUsersValid(now);
    SeedProposalsValid(now);
    SeedVotesValid();
    SeedCommentsValid(now);
    SeedNotificationsValid(now);
  }
}
