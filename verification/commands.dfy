/** The proposal-side commands of the store: notifications, creating a
    proposal, voting, commenting, the administrative status override and the
    cascade delete. Each command is a pure function from the store (and its
    arguments, and the current time) to the new store and its return value. */
module Commands {
  import opened Results
  import opened Seqs
  import opened Store
  import opened Lifecycle

  /** The voting window of a new proposal: seven days. */
  const VotingWindowMs: int := 7 * DayMs

  /** The notification `addNotification` puts in front: fresh id, unread,
      stamped `now`. */
  ghost predicate IsNewNotification(n: Notification, s: Store, kind: NotificationType, linkId: Option<int>, now: int) {
    n == Notification(s.nextId.notification, kind, linkId, false, now)
  }

  /** `addNotification`: prepend one unread notification with the next
      notification id. */
  function AddNotification(s: Store, kind: NotificationType, linkId: Option<int>, now: int): (r: Store)
    ensures |r.notifications| == |s.notifications| + 1
    ensures r.notifications[1..] == s.notifications
    ensures IsNewNotification(r.notifications[0], s, kind, linkId, now)
    ensures r.nextId == s.nextId.(notification := s.nextId.notification + 1)
    ensures r == s.(notifications := r.notifications, nextId := r.nextId)
    ensures Valid(s) ==> Valid(r)
  {
    var n := Notification(s.nextId.notification, kind, linkId, false, now);
    var ns := [n] + s.notifications;
    assert ns[1..] == s.notifications;
    s.(notifications := ns, nextId := s.nextId.(notification := s.nextId.notification + 1))
  }

  // ---------------------------------------------------------------------------
  // createProposal

  /** `createProposal`: a new Active proposal with the next proposal id,
      created `now` and due seven days later, put at the front of the list,
      announced by a `new_proposal` notification that links to it. */
  function CreateProposal(s: Store, title: string, description: string, tags: seq<string>,
                          authorId: int, authorName: string, now: int): (r: Reply<Proposal>)
    ensures r.value == Proposal(s.nextId.proposal, title, description, authorId, authorName,
                                tags, Active, now, now + VotingWindowMs)
    ensures r.store.proposals == [r.value] + s.proposals
    ensures |r.store.notifications| == |s.notifications| + 1
    ensures r.store.notifications[1..] == s.notifications
    ensures IsNewNotification(r.store.notifications[0], s, NewProposal, Some(r.value.id), now)
    ensures r.store.nextId == s.nextId.(proposal := s.nextId.proposal + 1,
                                        notification := s.nextId.notification + 1)
    ensures r.store.users == s.users && r.store.votes == s.votes && r.store.comments == s.comments
    ensures Valid(s) ==> Valid(r.store)
  {
    var p := Proposal(s.nextId.proposal, title, description, authorId, authorName,
                      tags, Active, now, now + VotingWindowMs);
    var s1 := s.(proposals := [p] + s.proposals, nextId := s.nextId.(proposal := s.nextId.proposal + 1));
    assert Valid(s) ==> Valid(s1) by {
      if Valid(s) {
        assert forall i | 1 <= i < |s1.proposals| :: s1.proposals[i] == s.proposals[i - 1];
      }
    }
    Reply(AddNotification(s1, NewProposal, Some(p.id), now), p)
  }

  /** A proposal right after creation is listed as Active with no votes and
      no comments, provided nothing stored already refers to the fresh id
      (`castVote` and `addComment` do not check that their proposal exists,
      so an orphan vote or comment on a not-yet-used id would be counted). */
  lemma CreatedProposalListing(s: Store, title: string, description: string, tags: seq<string>,
                               authorId: int, authorName: string, now: int, later: int)
    requires forall i | 0 <= i < |s.votes| :: s.votes[i].proposalId != s.nextId.proposal
    requires forall i | 0 <= i < |s.comments| :: s.comments[i].proposalId != s.nextId.proposal
    requires now <= later <= now + VotingWindowMs
    ensures var l := GetProposals(CreateProposal(s, title, description, tags, authorId, authorName, now).store, later).value;
            && |l| > 0
            && l[0].proposal.id == s.nextId.proposal
            && l[0].proposal.status == Active
            && Total(l[0].votes) == 0
            && l[0].commentCount == 0
  {
    var s1 := CreateProposal(s, title, description, tags, authorId, authorName, now).store;
    var id := s.nextId.proposal;
    FilterKeepsNone(s1.votes, (v: Vote) => v.proposalId == id);
    FilterKeepsNone(s1.comments, (c: Comment) => c.proposalId == id);
    var g := GetProposals(s1, later);
    assert ReconciledFrom(s1.proposals[0], g.store.proposals[0], later);
    assert g.value[0].proposal == g.store.proposals[0];
  }

  // ---------------------------------------------------------------------------
  // castVote

  /** `castVote`: throws AlreadyVoted when the voter has a vote on the
      proposal; otherwise appends a vote with the next vote id and, when the
      proposal exists, prepends a `vote_cast` notification linking to it. The
      proposal's existence is not required for the vote to be stored. */
  function CastVote(s: Store, proposalId: int, voterId: int, voterName: string,
                    option: VoteOption, now: int): (r: Result<Reply<Vote>, ApiError>)
    ensures r.Err? <==> HasVoted(s.votes, proposalId, voterId)
    ensures r.Err? ==> r.error == AlreadyVoted
    ensures r.Ok? ==> r.value.value == Vote(s.nextId.vote, proposalId, voterId, voterName, option)
    ensures r.Ok? ==> r.value.store.votes == s.votes + [r.value.value]
    ensures r.Ok? ==> r.value.store.nextId
                      == s.nextId.(vote := s.nextId.vote + 1,
                                   notification := s.nextId.notification
                                     + (if IndexOfId(s.proposals, ProposalId, proposalId).Some? then 1 else 0))
    ensures r.Ok? ==> r.value.store.users == s.users && r.value.store.proposals == s.proposals
                      && r.value.store.comments == s.comments
    ensures r.Ok? && IndexOfId(s.proposals, ProposalId, proposalId).Some? ==>
              && |r.value.store.notifications| == |s.notifications| + 1
              && r.value.store.notifications[1..] == s.notifications
              && IsNewNotification(r.value.store.notifications[0], s, VoteCast, Some(proposalId), now)
    ensures r.Ok? && IndexOfId(s.proposals, ProposalId, proposalId).None? ==>
              r.value.store.notifications == s.notifications
    ensures r.Ok? && Valid(s) ==> Valid(r.value.store)
  {
    if HasVoted(s.votes, proposalId, voterId) then Err(AlreadyVoted)
    else
      var v := Vote(s.nextId.vote, proposalId, voterId, voterName, option);
      var s1 := s.(votes := s.votes + [v], nextId := s.nextId.(vote := s.nextId.vote + 1));
      assert OneVotePerVoter(s.votes) ==> OneVotePerVoter(s1.votes);
      var s2 := if IndexOfId(s.proposals, ProposalId, proposalId).Some?
                then AddNotification(s1, VoteCast, Some(proposalId), now)
                else s1;
      Ok(Reply(s2, v))
  }

  /** A second vote by the same voter on the same proposal is rejected,
      whatever option it carries. */
  lemma SecondVoteRejected(s: Store, proposalId: int, voterId: int, name: string, option: VoteOption,
                           name2: string, option2: VoteOption, now: int, now2: int)
    requires CastVote(s, proposalId, voterId, name, option, now).Ok?
    ensures var s1 := CastVote(s, proposalId, voterId, name, option, now).value.store;
            CastVote(s1, proposalId, voterId, name2, option2, now2) == Err(AlreadyVoted)
  {
    var s1 := CastVote(s, proposalId, voterId, name, option, now).value.store;
    assert s1.votes[|s1.votes| - 1].proposalId == proposalId;
  }

  /** Filtering the vote list after appending one vote. */
  lemma OptionVotesAppend(votes: seq<Vote>, v: Vote, pid: int, option: VoteOption)
    ensures |OptionVotes(votes + [v], pid, option)|
         == |OptionVotes(votes, pid, option)| + (if v.proposalId == pid && v.vote == option then 1 else 0)
  {
    FilterAppend(votes, [v], (w: Vote) => w.proposalId == pid && w.vote == option);
  }

  /** A successful vote adds exactly one to its option's count on its
      proposal and leaves every other count of every proposal unchanged. */
  lemma CastVoteTally(s: Store, proposalId: int, voterId: int, name: string, option: VoteOption,
                      now: int, pid: int)
    requires CastVote(s, proposalId, voterId, name, option, now).Ok?
    ensures var t := Tally(CastVote(s, proposalId, voterId, name, option, now).value.store.votes, pid);
            var t0 := Tally(s.votes, pid);
            && t.yes == t0.yes + (if pid == proposalId && option == Yes then 1 else 0)
            && t.no == t0.no + (if pid == proposalId && option == No then 1 else 0)
            && t.abstain == t0.abstain + (if pid == proposalId && option == Abstain then 1 else 0)
  {
    var v := CastVote(s, proposalId, voterId, name, option, now).value.value;
    OptionVotesAppend(s.votes, v, pid, Yes);
    OptionVotesAppend(s.votes, v, pid, No);
    OptionVotesAppend(s.votes, v, pid, Abstain);
  }

  // ---------------------------------------------------------------------------
  // addComment

  /** `addComment`: append a comment with the next comment id, stamped `now`.
      The content is stored as given; nothing is validated here. */
  function AddComment(s: Store, proposalId: int, authorId: int, authorName: string,
                      content: string, now: int): (r: Reply<Comment>)
    ensures r.value == Comment(s.nextId.comment, proposalId, authorId, authorName, content, now)
    ensures r.store.comments == s.comments + [r.value]
    ensures r.store == s.(comments := r.store.comments, nextId := s.nextId.(comment := s.nextId.comment + 1))
    ensures Valid(s) ==> Valid(r.store)
  {
    var c := Comment(s.nextId.comment, proposalId, authorId, authorName, content, now);
    Reply(s.(comments := s.comments + [c], nextId := s.nextId.(comment := s.nextId.comment + 1)), c)
  }

  /** A new comment raises its proposal's comment count by one and no other. */
  lemma AddCommentCount(s: Store, proposalId: int, authorId: int, authorName: string,
                        content: string, now: int, pid: int)
    ensures |CommentsOn(AddComment(s, proposalId, authorId, authorName, content, now).store.comments, pid)|
         == |CommentsOn(s.comments, pid)| + (if pid == proposalId then 1 else 0)
  {
    var c := AddComment(s, proposalId, authorId, authorName, content, now).value;
    FilterAppend(s.comments, [c], (d: Comment) => d.proposalId == pid);
  }

  // ---------------------------------------------------------------------------
  // deleteProposal

  /** `deleteProposal`: drop the proposal and, in cascade, its votes and
      comments. An unknown id removes nothing and is not an error. */
  function DeleteProposal(s: Store, id: int): (r: Store)
    ensures forall p | p in r.proposals :: p.id != id
    ensures forall v | v in r.votes :: v.proposalId != id
    ensures forall c | c in r.comments :: c.proposalId != id
    ensures forall p | p in s.proposals && p.id != id :: p in r.proposals
    ensures forall v | v in s.votes && v.proposalId != id :: v in r.votes
    ensures forall c | c in s.comments && c.proposalId != id :: c in r.comments
    ensures forall p :: multiset(r.proposals)[p] == if p.id != id then multiset(s.proposals)[p] else 0
    ensures forall v :: multiset(r.votes)[v] == if v.proposalId != id then multiset(s.votes)[v] else 0
    ensures forall c :: multiset(r.comments)[c] == if c.proposalId != id then multiset(s.comments)[c] else 0
    ensures IsSubsequence(r.proposals, s.proposals)
    ensures IsSubsequence(r.votes, s.votes)
    ensures IsSubsequence(r.comments, s.comments)
    ensures r.users == s.users && r.notifications == s.notifications && r.nextId == s.nextId
    ensures Valid(s) ==> Valid(r)
  {
    var keepP := (p: Proposal) => p.id != id;
    var keepV := (v: Vote) => v.proposalId != id;
    var keepC := (c: Comment) => c.proposalId != id;
    FilterMembership(s.proposals, keepP);
    FilterMembership(s.votes, keepV);
    FilterMembership(s.comments, keepC);
    FilterMultiset(s.proposals, keepP);
    FilterMultiset(s.votes, keepV);
    FilterMultiset(s.comments, keepC);
    var ps := Filter(s.proposals, keepP);
    var vs := Filter(s.votes, keepV);
    var cs := Filter(s.comments, keepC);
    var r := s.(proposals := ps, votes := vs, comments := cs);
    assert Valid(s) ==> Valid(r) by {
      if Valid(s) {
        SubsequenceUniqueIds(ps, s.proposals, ProposalId);
        SubsequenceUniqueIds(vs, s.votes, VoteId);
        SubsequenceUniqueIds(cs, s.comments, CommentId);
        SubsequenceOneVotePerVoter(vs, s.votes);
        SubsequenceMembership(ps, s.proposals);
        SubsequenceMembership(vs, s.votes);
        SubsequenceMembership(cs, s.comments);
        assert forall i | 0 <= i < |vs| :: vs[i] in s.votes;
      }
    }
    r
  }

  lemma {:induction false} SubsequenceUniqueIds<T>(a: seq<T>, b: seq<T>, idOf: T -> int)
    requires IsSubsequence(a, b) && UniqueIds(b, idOf)
    ensures UniqueIds(a, idOf)
    decreases |b|
  {
    if a != [] {
      if a[0] == b[0] && IsSubsequence(a[1..], b[1..]) {
        SubsequenceUniqueIds(a[1..], b[1..], idOf);
        SubsequenceMembership(a[1..], b[1..]);
        forall j | 0 < j < |a|
          ensures idOf(a[0]) != idOf(a[j])
        {
          assert a[j] == a[1..][j - 1];
          assert a[j] in b[1..];
          var m :| 0 <= m < |b[1..]| && b[1..][m] == a[j];
          assert b[m + 1] == a[j];
        }
      } else {
        SubsequenceUniqueIds(a, b[1..], idOf);
      }
    }
  }

  lemma {:induction false} SubsequenceOneVotePerVoter(a: seq<Vote>, b: seq<Vote>)
    requires IsSubsequence(a, b) && OneVotePerVoter(b)
    ensures OneVotePerVoter(a)
    decreases |b|
  {
    if a != [] {
      if a[0] == b[0] && IsSubsequence(a[1..], b[1..]) {
        SubsequenceOneVotePerVoter(a[1..], b[1..]);
        SubsequenceMembership(a[1..], b[1..]);
        forall j | 0 < j < |a|
          ensures a[0].proposalId != a[j].proposalId || a[0].voterId != a[j].voterId
        {
          assert a[j] == a[1..][j - 1];
          assert a[j] in b[1..];
          var m :| 0 <= m < |b[1..]| && b[1..][m] == a[j];
          assert b[m + 1] == a[j];
        }
      } else {
        SubsequenceOneVotePerVoter(a, b[1..]);
      }
    }
  }

  /** A delete of an id that no proposal, vote or comment carries leaves the
      store as it was. (Votes and comments left on a missing proposal do
      carry its id, so a delete of that id still removes them.) */
  lemma DeleteUnusedIdIsNoOp(s: Store, id: int)
    requires forall i | 0 <= i < |s.proposals| :: s.proposals[i].id != id
    requires forall i | 0 <= i < |s.votes| :: s.votes[i].proposalId != id
    requires forall i | 0 <= i < |s.comments| :: s.comments[i].proposalId != id
    ensures DeleteProposal(s, id) == s
  {
    FilterKeepsAll(s.proposals, (p: Proposal) => p.id != id);
    FilterKeepsAll(s.votes, (v: Vote) => v.proposalId != id);
    FilterKeepsAll(s.comments, (c: Comment) => c.proposalId != id);
  }

  /** Deleting a missing proposal still removes the votes cast on it. */
  lemma DeleteRemovesOrphanVotes(s: Store, id: int)
    requires forall i | 0 <= i < |s.proposals| :: s.proposals[i].id != id
    requires exists i | 0 <= i < |s.votes| :: s.votes[i].proposalId == id
    ensures DeleteProposal(s, id) != s
  {
    var i :| 0 <= i < |s.votes| && s.votes[i].proposalId == id;
    assert s.votes[i] in s.votes;
  }

  /** After a delete, the proposal is gone from the detail view and its
      tally is empty. */
  lemma DeleteProposalGone(s: Store, id: int, now: int)
    ensures GetProposalById(DeleteProposal(s, id), id, now).value.None?
    ensures Total(Tally(DeleteProposal(s, id).votes, id)) == 0
    ensures |CommentsOn(DeleteProposal(s, id).comments, id)| == 0
  {
    var r := DeleteProposal(s, id);
    TallySum(r.votes, id);
    FilterKeepsNone(r.votes, (v: Vote) => v.proposalId == id);
    FilterKeepsNone(r.comments, (c: Comment) => c.proposalId == id);
  }

  /** Deleting one proposal leaves every other proposal's tally and comment
      count as they were. */
  lemma DeleteProposalKeepsOthers(s: Store, id: int, pid: int)
    requires pid != id
    ensures Tally(DeleteProposal(s, id).votes, pid) == Tally(s.votes, pid)
    ensures |CommentsOn(DeleteProposal(s, id).comments, pid)| == |CommentsOn(s.comments, pid)|
  {
    FilterThenStricter(s.votes, (v: Vote) => v.proposalId != id, (v: Vote) => v.proposalId == pid && v.vote == Yes);
    FilterThenStricter(s.votes, (v: Vote) => v.proposalId != id, (v: Vote) => v.proposalId == pid && v.vote == No);
    FilterThenStricter(s.votes, (v: Vote) => v.proposalId != id, (v: Vote) => v.proposalId == pid && v.vote == Abstain);
    FilterThenStricter(s.comments, (c: Comment) => c.proposalId != id, (c: Comment) => c.proposalId == pid);
  }

  // ---------------------------------------------------------------------------
  // updateProposalStatus

  /** `updateProposalStatus`: throws ProposalNotFound when no proposal has
      the id; otherwise sets the status of the first proposal with that id
      to the given value, whatever the current status, and returns it. */
  function UpdateProposalStatus(s: Store, id: int, status: ProposalStatus): (r: Result<Reply<Proposal>, ApiError>)
    ensures r.Err? <==> forall j | 0 <= j < |s.proposals| :: s.proposals[j].id != id
    ensures r.Err? ==> r.error == ProposalNotFound
    ensures r.Ok? ==>
              var k := IndexOfId(s.proposals, ProposalId, id).value;
              && r.value.value == s.proposals[k].(status := status)
              && r.value.store == s.(proposals := s.proposals[k := r.value.value])
    ensures r.Ok? && Valid(s) ==> Valid(r.value.store)
  {
    match IndexOfId(s.proposals, ProposalId, id)
    case None => Err(ProposalNotFound)
    case Some(k) =>
      var p := s.proposals[k].(status := status);
      var ps := s.proposals[k := p];
      assert Valid(s) ==> Valid(s.(proposals := ps)) by {
        if Valid(s) { ReplaceProposalValid(s, k, p); }
      }
      Ok(Reply(s.(proposals := ps), p))
  }

  /** With unique ids, the override touches the proposal with that id and
      no other proposal. */
  lemma UpdateStatusFrame(s: Store, id: int, status: ProposalStatus, j: nat)
    requires UniqueIds(s.proposals, ProposalId)
    requires UpdateProposalStatus(s, id, status).Ok?
    requires j < |s.proposals|
    ensures var ps := UpdateProposalStatus(s, id, status).value.store.proposals;
            && |ps| == |s.proposals|
            && (s.proposals[j].id != id ==> ps[j] == s.proposals[j])
            && (s.proposals[j].id == id ==> ps[j] == s.proposals[j].(status := status))
  {
    if s.proposals[j].id == id {
      UniqueIndexOfId(s.proposals, ProposalId, j);
    }
  }

  // ---------------------------------------------------------------------------
  // Notifications

  function NotificationTime(n: Notification): int { n.timestamp }

  /** `getNotifications`: a copy of the notifications sorted newest first;
      notifications with equal timestamps keep their stored order. The store
      is not changed. */
  function GetNotifications(s: Store): (r: seq<Notification>)
    ensures SortedDesc(r, NotificationTime)
    ensures multiset(r) == multiset(s.notifications)
    ensures forall t :: Filter(r, KeyIs(NotificationTime, t)) == Filter(s.notifications, KeyIs(NotificationTime, t))
  {
    var r := SortDesc(s.notifications, NotificationTime);
    assert forall t :: Filter(r, KeyIs(NotificationTime, t)) == Filter(s.notifications, KeyIs(NotificationTime, t)) by {
      forall t {
        SortDescStable(s.notifications, NotificationTime, t);
      }
    }
    r
  }

  /** `markNotificationAsRead`: the first notification with the id is marked
      read; an unknown id changes nothing. */
  function MarkNotificationAsRead(s: Store, id: int): (r: Store)
    ensures r == s.(notifications := r.notifications)
    ensures |r.notifications| == |s.notifications|
    ensures IndexOfId(s.notifications, NotificationId, id).None? ==> r == s
    ensures IndexOfId(s.notifications, NotificationId, id).Some? ==>
              var k := IndexOfId(s.notifications, NotificationId, id).value;
              && r.notifications[k] == s.notifications[k].(read := true)
              && forall j | 0 <= j < |s.notifications| && j != k :: r.notifications[j] == s.notifications[j]
    ensures Valid(s) ==> Valid(r)
  {
    match IndexOfId(s.notifications, NotificationId, id)
    case None => s
    case Some(k) =>
      var ns := s.notifications[k := s.notifications[k].(read := true)];
      assert forall i | 0 <= i < |ns| :: NotificationId(ns[i]) == NotificationId(s.notifications[i]);
      s.(notifications := ns)
  }

  /** Marking a notification read twice is the same as marking it once. */
  lemma MarkReadIdempotent(s: Store, id: int)
    ensures MarkNotificationAsRead(MarkNotificationAsRead(s, id), id) == MarkNotificationAsRead(s, id)
  {
    var r := MarkNotificationAsRead(s, id);
    var k := IndexOfId(s.notifications, NotificationId, id);
    if k.Some? {
      assert forall i | 0 <= i < |r.notifications| :: NotificationId(r.notifications[i]) == NotificationId(s.notifications[i]);
      SameIdsSameIndex(s.notifications, r.notifications, NotificationId, id);
    }
  }
}
