/** The records of the mock database and the store that holds them: users,
    proposals, votes, comments, notifications and the per-kind id counters.
    Timestamps are integers counting milliseconds; ISO date strings are not
    modelled. */
module Store {
  import opened Results

  /** One day in milliseconds (`24 * 60 * 60 * 1000`). */
  const DayMs: int := 86_400_000

  datatype VoteOption = Yes | No | Abstain

  datatype ProposalStatus = Active | Closed | Expired

  datatype Proposal = Proposal(
    id: int,
    title: string,
    description: string,
    authorId: int,
    authorName: string,
    tags: seq<string>,
    status: ProposalStatus,
    createdAt: int,
    deadline: int)

  /** `voterName` is a snapshot of the voter's display name at voting time. */
  datatype Vote = Vote(
    id: int,
    proposalId: int,
    voterId: int,
    voterName: string,
    vote: VoteOption)

  datatype Comment = Comment(
    id: int,
    proposalId: int,
    authorId: int,
    authorName: string,
    content: string,
    createdAt: int)

  /** Each side of a follow is stored on its own user: `followers` on the
      followed user, `following` on the follower. */
  datatype User = User(
    id: int,
    name: string,
    joinDate: int,
    followers: seq<int>,
    following: seq<int>)

  datatype NotificationType = NewProposal | VoteCast | DeadlineSoon | NewFollower | Welcome

  /** The message text of a notification is not modelled. */
  datatype Notification = Notification(
    id: int,
    kind: NotificationType,
    linkId: Option<int>,
    read: bool,
    timestamp: int)

  /** The next id to hand out, per entity kind. */
  datatype NextIds = NextIds(proposal: int, vote: int, comment: int, notification: int)

  datatype Store = Store(
    users: seq<User>,
    proposals: seq<Proposal>,
    votes: seq<Vote>,
    comments: seq<Comment>,
    notifications: seq<Notification>,
    nextId: NextIds)

  /** What a command hands back: the new store and the call's return value. */
  datatype Reply<+T> = Reply(store: Store, value: T)

  /** The errors the store throws. */
  datatype ApiError = AlreadyVoted | ProposalNotFound

  // ---------------------------------------------------------------------------
  // Id projections, usable as function values.

  function UserId(u: User): int { u.id }
  function ProposalId(p: Proposal): int { p.id }
  function VoteId(v: Vote): int { v.id }
  function CommentId(c: Comment): int { c.id }
  function NotificationId(n: Notification): int { n.id }

  /** No two elements share an id. */
  predicate UniqueIds<T>(s: seq<T>, id: T -> int) {
    forall i, j | 0 <= i < j < |s| :: id(s[i]) != id(s[j])
  }

  /** Every id handed out so far is below the counter, so the counter is fresh. */
  predicate IdsBelow<T>(s: seq<T>, id: T -> int, next: int) {
    forall i | 0 <= i < |s| :: id(s[i]) < next
  }

  /** The voter already has a vote on the proposal. */
  predicate HasVoted(votes: seq<Vote>, proposalId: int, voterId: int) {
    exists i | 0 <= i < |votes| :: votes[i].proposalId == proposalId && votes[i].voterId == voterId
  }

  /** At most one vote per (proposal, voter) pair. */
  predicate OneVotePerVoter(votes: seq<Vote>) {
    forall i, j | 0 <= i < j < |votes| ::
      votes[i].proposalId != votes[j].proposalId || votes[i].voterId != votes[j].voterId
  }

  /** The two stored sides of every follow agree: `a` lists `b` among its
      followers exactly when `b` lists `a` among the users it follows. */
  predicate FollowConsistent(users: seq<User>) {
    forall i, j | 0 <= i < |users| && 0 <= j < |users| ::
      users[i].id in users[j].followers <==> users[j].id in users[i].following
  }

  /** The invariant every command of the store preserves. */
  predicate Valid(s: Store) {
    && UniqueIds(s.users, UserId)
    && UniqueIds(s.proposals, ProposalId)
    && UniqueIds(s.votes, VoteId)
    && UniqueIds(s.comments, CommentId)
    && UniqueIds(s.notifications, NotificationId)
    && IdsBelow(s.proposals, ProposalId, s.nextId.proposal)
    && IdsBelow(s.votes, VoteId, s.nextId.vote)
    && IdsBelow(s.comments, CommentId, s.nextId.comment)
    && IdsBelow(s.notifications, NotificationId, s.nextId.notification)
    && OneVotePerVoter(s.votes)
    && FollowConsistent(s.users)
  }

  /** Position of the element a lookup by id finds: the first
      one carrying `id`, or `None` when no element does. */
  function IndexOfId<T>(s: seq<T>, idOf: T -> int, id: int): (r: Option<nat>)
    ensures r.Some? ==> r.value < |s| && idOf(s[r.value]) == id
    ensures r.Some? ==> forall j | 0 <= j < r.value :: idOf(s[j]) != id
    ensures r.None? <==> forall j | 0 <= j < |s| :: idOf(s[j]) != id
  {
    if s == [] then None
    else if idOf(s[0]) == id then Some(0)
    else match IndexOfId(s[1..], idOf, id)
      case None => None
      case Some(i) => Some(i + 1)
  }

  /** When ids are unique, the element carrying an id is the one `find` returns. */
  lemma UniqueIndexOfId<T>(s: seq<T>, idOf: T -> int, k: nat)
    requires UniqueIds(s, idOf)
    requires k < |s|
    ensures IndexOfId(s, idOf, idOf(s[k])) == Some(k)
  {
  }

  /** Rewriting one proposal in place, id unchanged, keeps the invariant. */
  lemma ReplaceProposalValid(s: Store, k: nat, p: Proposal)
    requires Valid(s) && k < |s.proposals| && p.id == s.proposals[k].id
    ensures Valid(s.(proposals := s.proposals[k := p]))
  {
    var ps := s.proposals[k := p];
    assert forall i | 0 <= i < |ps| :: ProposalId(ps[i]) == ProposalId(s.proposals[i]);
  }

  /** `find` by id only looks at the ids. */
  lemma {:induction false} SameIdsSameIndex<T>(a: seq<T>, b: seq<T>, idOf: T -> int, id: int)
    requires |a| == |b|
    requires forall i | 0 <= i < |a| :: idOf(a[i]) == idOf(b[i])
    ensures IndexOfId(a, idOf, id) == IndexOfId(b, idOf, id)
  {
    if a != [] {
      assert forall i | 0 <= i < |a| - 1 :: a[1..][i] == a[i + 1] && b[1..][i] == b[i + 1];
      SameIdsSameIndex(a[1..], b[1..], idOf, id);
    }
  }
}
