/** The user side of the store: profile statistics, the leaderboard and the
    follow relation. */
module Social {
  import opened Results
  import opened Seqs
  import opened Store
  import opened Commands

  // ---------------------------------------------------------------------------
  // Profile statistics

  datatype UserStats = UserStats(user: User, proposalsCreated: nat, votesCast: nat)

  /** The proposals user `uid` authored, in stored order. */
  function ProposalsBy(proposals: seq<Proposal>, uid: int): (r: seq<Proposal>)
    ensures forall p | p in r :: p.authorId == uid && p in proposals
    ensures forall p | p in proposals && p.authorId == uid :: p in r
    ensures forall p :: multiset(r)[p] == if p.authorId == uid then multiset(proposals)[p] else 0
    ensures IsSubsequence(r, proposals)
  {
    var keep := (p: Proposal) => p.authorId == uid;
    FilterMembership(proposals, keep);
    FilterMultiset(proposals, keep);
    Filter(proposals, keep)
  }

  /** The votes user `uid` cast, in stored order. */
  function VotesBy(votes: seq<Vote>, uid: int): (r: seq<Vote>)
    ensures forall v | v in r :: v.voterId == uid && v in votes
    ensures forall v | v in votes && v.voterId == uid :: v in r
    ensures forall v :: multiset(r)[v] == if v.voterId == uid then multiset(votes)[v] else 0
    ensures IsSubsequence(r, votes)
  {
    var keep := (v: Vote) => v.voterId == uid;
    FilterMembership(votes, keep);
    FilterMultiset(votes, keep);
    Filter(votes, keep)
  }

  function StatsOf(s: Store, u: User): UserStats {
    UserStats(u, |ProposalsBy(s.proposals, u.id)|, |VotesBy(s.votes, u.id)|)
  }

  /** `getUserById`: the first user with the id, with the number of
      proposals they authored and votes they cast; `None` for an unknown id. */
  function GetUserById(s: Store, id: int): (r: Option<UserStats>)
    ensures r.None? <==> forall j | 0 <= j < |s.users| :: s.users[j].id != id
    ensures r.Some? ==> r.value.user == s.users[IndexOfId(s.users, UserId, id).value]
    ensures r.Some? ==> r.value.user.id == id
    ensures r.Some? ==> r.value.proposalsCreated == |ProposalsBy(s.proposals, id)|
    ensures r.Some? ==> r.value.votesCast == |VotesBy(s.votes, id)|
  {
    match IndexOfId(s.users, UserId, id)
    case None => None
    case Some(k) => Some(StatsOf(s, s.users[k]))
  }

  /** A successful vote raises the voter's `votesCast` by one and leaves
      everybody else's unchanged. */
  lemma CastVoteCountsForVoter(s: Store, proposalId: int, voterId: int, name: string,
                               option: VoteOption, now: int, uid: int)
    requires CastVote(s, proposalId, voterId, name, option, now).Ok?
    ensures |VotesBy(CastVote(s, proposalId, voterId, name, option, now).value.store.votes, uid)|
         == |VotesBy(s.votes, uid)| + (if uid == voterId then 1 else 0)
  {
    var v := CastVote(s, proposalId, voterId, name, option, now).value.value;
    FilterAppend(s.votes, [v], (w: Vote) => w.voterId == uid);
  }

  /** Creating a proposal raises its author's `proposalsCreated` by one and
      leaves everybody else's unchanged. */
  lemma CreateProposalCountsForAuthor(s: Store, title: string, description: string, tags: seq<string>,
                                      authorId: int, authorName: string, now: int, uid: int)
    ensures |ProposalsBy(CreateProposal(s, title, description, tags, authorId, authorName, now).store.proposals, uid)|
         == |ProposalsBy(s.proposals, uid)| + (if uid == authorId then 1 else 0)
  {
    var p := CreateProposal(s, title, description, tags, authorId, authorName, now).value;
    FilterAppend([p], s.proposals, (q: Proposal) => q.authorId == uid);
  }

  // ---------------------------------------------------------------------------
  // Leaderboard

  datatype LeaderboardEntry = LeaderboardEntry(stats: UserStats, communityScore: int)

  /** Five points per authored proposal, one per vote cast, two per follower. */
  function CommunityScore(st: UserStats): int {
    st.proposalsCreated * 5 + st.votesCast * 1 + |st.user.followers| * 2
  }

  function EntryFor(s: Store, u: User): LeaderboardEntry {
    var st := StatsOf(s, u);
    LeaderboardEntry(st, CommunityScore(st))
  }

  function EntryScore(e: LeaderboardEntry): int { e.communityScore }

  function EntryUser(e: LeaderboardEntry): User { e.stats.user }

  /** Every user's entry, in user-list order (the `users.map` before the sort). */
  function Entries(s: Store): (r: seq<LeaderboardEntry>)
    ensures |r| == |s.users|
    ensures forall i | 0 <= i < |r| :: r[i] == EntryFor(s, s.users[i])
  {
    Map(s.users, u => EntryFor(s, u))
  }

  /** `getLeaderboard`: one entry per user, sorted by community score, highest
      first; users with equal scores keep their user-list order. */
  function GetLeaderboard(s: Store): (r: seq<LeaderboardEntry>)
    ensures |r| == |s.users|
    ensures forall i, j | 0 <= i < j < |r| :: r[i].communityScore >= r[j].communityScore
    ensures multiset(Map(r, EntryUser)) == multiset(s.users)
    ensures forall i | 0 <= i < |r| :: r[i].stats == StatsOf(s, r[i].stats.user)
    ensures forall i | 0 <= i < |r| ::
              r[i].communityScore == 5 * r[i].stats.proposalsCreated + r[i].stats.votesCast
                                     + 2 * |r[i].stats.user.followers|
  {
    var es := Entries(s);
    var r := SortDesc(es, EntryScore);
    MapPermutation(r, es, EntryUser);
    assert Map(es, EntryUser) == s.users;
    EntriesOfSorted(s, r);
    r
  }

  /** Every element of a permutation of the entries is some user's entry. */
  lemma EntriesOfSorted(s: Store, r: seq<LeaderboardEntry>)
    requires multiset(r) == multiset(Entries(s))
    ensures forall i | 0 <= i < |r| :: r[i] == EntryFor(s, r[i].stats.user)
  {
    var es := Entries(s);
    forall i | 0 <= i < |r|
      ensures r[i] == EntryFor(s, r[i].stats.user)
    {
      assert r[i] in multiset(es);
      var k :| 0 <= k < |es| && es[k] == r[i];
    }
  }

  /** Ties on the leaderboard are listed in user-list order. */
  lemma LeaderboardStable(s: Store, score: int)
    ensures Filter(GetLeaderboard(s), KeyIs(EntryScore, score)) == Filter(Entries(s), KeyIs(EntryScore, score))
  {
    SortDescStable(Entries(s), EntryScore, score);
  }

  /** With unique user ids, each leaderboard entry carries exactly the
      statistics `getUserById` reports for that user. */
  lemma LeaderboardAgreesWithProfile(s: Store, i: nat)
    requires UniqueIds(s.users, UserId)
    requires i < |s.users|
    ensures GetUserById(s, GetLeaderboard(s)[i].stats.user.id) == Some(GetLeaderboard(s)[i].stats)
  {
    var r := GetLeaderboard(s);
    var u := r[i].stats.user;
    assert Map(r, EntryUser)[i] == u;
    assert u in multiset(s.users);
    var k :| 0 <= k < |s.users| && s.users[k] == u;
    UniqueIndexOfId(s.users, UserId, k);
  }

  // ---------------------------------------------------------------------------
  // Follow and unfollow

  /** `u` is `v` with `b` appended to `following` when `k == i` and `a`
      appended to `followers` when `k == j` (both, if `i == j == k`). */
  ghost predicate FollowEdited(v: User, u: User, k: int, i: int, j: int, a: int, b: int) {
    && u.id == v.id && u.name == v.name && u.joinDate == v.joinDate
    && u.following == (if k == i then v.following + [b] else v.following)
    && u.followers == (if k == j then v.followers + [a] else v.followers)
  }

  /** `followUser(a, b)`: when both users exist and `a` does not already
      follow `b`, append `b` to `a.following`, `a` to `b.followers`, and
      prepend a `new_follower` notification without a link. Otherwise
      nothing changes. */
  function FollowUser(s: Store, a: int, b: int, now: int): (r: Store)
    ensures var ia := IndexOfId(s.users, UserId, a);
            var ib := IndexOfId(s.users, UserId, b);
            ia.None? || ib.None? || b in s.users[ia.value].following ==> r == s
    ensures var ia := IndexOfId(s.users, UserId, a);
            var ib := IndexOfId(s.users, UserId, b);
            ia.Some? && ib.Some? && b !in s.users[ia.value].following ==>
              && |r.users| == |s.users|
              && (forall k | 0 <= k < |s.users| ::
                    FollowEdited(s.users[k], r.users[k], k, ia.value, ib.value, a, b))
              && r.proposals == s.proposals && r.votes == s.votes && r.comments == s.comments
              && |r.notifications| == |s.notifications| + 1
              && r.notifications[1..] == s.notifications
              && IsNewNotification(r.notifications[0], s, NewFollower, None, now)
              && r.nextId == s.nextId.(notification := s.nextId.notification + 1)
    ensures Valid(s) ==> Valid(r)
  {
    match (IndexOfId(s.users, UserId, a), IndexOfId(s.users, UserId, b))
    case (Some(i), Some(j)) =>
      if b in s.users[i].following then s
      else
        var us2 := AddFollow(s.users, i, j, a, b);
        var s1 := s.(users := us2);
        assert Valid(s) ==> Valid(s1) by {
          if Valid(s) {
            FollowPreservesConsistency(s.users, us2, i, j, a, b);
          }
        }
        AddNotification(s1, NewFollower, None, now)
    case _ => s
  }

  /** The two list updates of `followUser`, at positions `i` (the follower)
      and then `j` (the followed user). */
  function AddFollow(us: seq<User>, i: nat, j: nat, a: int, b: int): (us2: seq<User>)
    requires i < |us| && j < |us|
    ensures |us2| == |us|
    ensures forall k | 0 <= k < |us| :: FollowEdited(us[k], us2[k], k, i, j, a, b)
  {
    var us1 := us[i := us[i].(following := us[i].following + [b])];
    us1[j := us1[j].(followers := us1[j].followers + [a])]
  }

  lemma FollowPreservesConsistency(us: seq<User>, us2: seq<User>, i: nat, j: nat, a: int, b: int)
    requires UniqueIds(us, UserId) && FollowConsistent(us)
    requires i < |us| && j < |us| && us[i].id == a && us[j].id == b
    requires |us2| == |us|
    requires forall k | 0 <= k < |us| :: FollowEdited(us[k], us2[k], k, i, j, a, b)
    ensures UniqueIds(us2, UserId) && FollowConsistent(us2)
  {
    assert forall k | 0 <= k < |us| :: UserId(us2[k]) == UserId(us[k]);
    forall x, y | 0 <= x < |us| && 0 <= y < |us|
      ensures us2[x].id in us2[y].followers <==> us2[y].id in us2[x].following
    {
      assert us[x].id == a <==> x == i;
      assert us[y].id == b <==> y == j;
      assert us[x].id in us[y].followers <==> us[y].id in us[x].following;
    }
  }

  /** `u` is `v` with every `b` removed from `following` when `i == k` and
      every `a` removed from `followers` when `j == k`. */
  ghost predicate UnfollowEdited(v: User, u: User, k: int, i: int, j: int, a: int, b: int) {
    && u.id == v.id && u.name == v.name && u.joinDate == v.joinDate
    && u.following == (if k == i then RemoveAll(v.following, b) else v.following)
    && u.followers == (if k == j then RemoveAll(v.followers, a) else v.followers)
  }

  /** `unfollowUser(a, b)`: when both users exist, remove every `b` from
      `a.following` and every `a` from `b.followers`. Otherwise nothing
      changes. No notification is sent. */
  function UnfollowUser(s: Store, a: int, b: int): (r: Store)
    ensures var ia := IndexOfId(s.users, UserId, a);
            var ib := IndexOfId(s.users, UserId, b);
            ia.None? || ib.None? ==> r == s
    ensures var ia := IndexOfId(s.users, UserId, a);
            var ib := IndexOfId(s.users, UserId, b);
            ia.Some? && ib.Some? ==>
              && r == s.(users := r.users)
              && |r.users| == |s.users|
              && b !in r.users[ia.value].following
              && a !in r.users[ib.value].followers
              && forall k | 0 <= k < |s.users| ::
                   UnfollowEdited(s.users[k], r.users[k], k, ia.value, ib.value, a, b)
    ensures Valid(s) ==> Valid(r)
  {
    match (IndexOfId(s.users, UserId, a), IndexOfId(s.users, UserId, b))
    case (Some(i), Some(j)) =>
      var us2 := RemoveFollow(s.users, i, j, a, b);
      assert Valid(s) ==> Valid(s.(users := us2)) by {
        if Valid(s) {
          UnfollowPreservesConsistency(s.users, us2, i, j, a, b);
        }
      }
      s.(users := us2)
    case _ => s
  }

  /** The two list updates of `unfollowUser`, at positions `i` and then `j`. */
  function RemoveFollow(us: seq<User>, i: nat, j: nat, a: int, b: int): (us2: seq<User>)
    requires i < |us| && j < |us|
    ensures |us2| == |us|
    ensures forall k | 0 <= k < |us| :: UnfollowEdited(us[k], us2[k], k, i, j, a, b)
  {
    var us1 := us[i := us[i].(following := RemoveAll(us[i].following, b))];
    us1[j := us1[j].(followers := RemoveAll(us1[j].followers, a))]
  }

  lemma UnfollowPreservesConsistency(us: seq<User>, us2: seq<User>, i: nat, j: nat, a: int, b: int)
    requires UniqueIds(us, UserId) && FollowConsistent(us)
    requires i < |us| && j < |us| && us[i].id == a && us[j].id == b
    requires |us2| == |us|
    requires forall k | 0 <= k < |us| :: UnfollowEdited(us[k], us2[k], k, i, j, a, b)
    ensures UniqueIds(us2, UserId) && FollowConsistent(us2)
  {
    assert forall k | 0 <= k < |us| :: UserId(us2[k]) == UserId(us[k]);
    forall x, y | 0 <= x < |us| && 0 <= y < |us|
      ensures us2[x].id in us2[y].followers <==> us2[y].id in us2[x].following
    {
      assert us[x].id == a <==> x == i;
      assert us[y].id == b <==> y == j;
      assert us[x].id in us[y].followers <==> us[y].id in us[x].following;
    }
  }

  /** Following and then unfollowing, starting from a state where `a` does
      not follow `b`, restores both users' lists (the notification the
      follow sent stays). */
  lemma FollowThenUnfollowRestoresUsers(s: Store, a: int, b: int, now: int)
    requires Valid(s)
    requires forall k | 0 <= k < |s.users| && s.users[k].id == a :: b !in s.users[k].following
    ensures UnfollowUser(FollowUser(s, a, b, now), a, b).users == s.users
  {
    var ia := IndexOfId(s.users, UserId, a);
    var ib := IndexOfId(s.users, UserId, b);
    if ia.Some? && ib.Some? {
      var i, j := ia.value, ib.value;
      var s1 := FollowUser(s, a, b, now);
      assert a !in s.users[j].followers by {
        assert s.users[i].id in s.users[j].followers <==> s.users[j].id in s.users[i].following;
      }
      UniqueIndexOfId(s1.users, UserId, i);
      UniqueIndexOfId(s1.users, UserId, j);
      UndoFollow(s.users, i, j, a, b);
    }
  }

  lemma UndoFollow(us: seq<User>, i: nat, j: nat, a: int, b: int)
    requires i < |us| && j < |us|
    requires b !in us[i].following && a !in us[j].followers
    ensures RemoveFollow(AddFollow(us, i, j, a, b), i, j, a, b) == us
  {
    var us2 := RemoveFollow(AddFollow(us, i, j, a, b), i, j, a, b);
    forall k | 0 <= k < |us|
      ensures us2[k] == us[k]
    {
      if k == i { RemoveAfterAppend(us[k].following, b); }
      if k == j { RemoveAfterAppend(us[k].followers, a); }
    }
  }
}
