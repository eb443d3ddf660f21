/** The read side of the store: the expiry check that `getProposals` and
    `getProposalById` run before answering, and the derived views (vote
    tallies, comment counts, proposal details). */
module Lifecycle {
  import opened Results
  import opened Seqs
  import opened Store

  // ---------------------------------------------------------------------------
  // Status reconciliation

  /** `q` is `p` after the expiry check at time `now`: an Active proposal
      whose deadline lies strictly before `now` has become Expired; nothing
      else about it, and nothing about any other proposal, has changed. */
  ghost predicate ReconciledFrom(p: Proposal, q: Proposal, now: int) {
    && q == p.(status := q.status)
    && (p.status == Active && p.deadline < now ==> q.status == Expired)
    && (!(p.status == Active && p.deadline < now) ==> q.status == p.status)
  }

  function ReconcileOne(p: Proposal, now: int): Proposal {
    if p.status == Active && p.deadline < now then p.(status := Expired) else p
  }

  /** The `proposals.forEach` expiry loop of `getProposals`. */
  function Reconcile(ps: seq<Proposal>, now: int): (r: seq<Proposal>)
    ensures |r| == |ps|
    ensures forall i | 0 <= i < |ps| :: ReconciledFrom(ps[i], r[i], now)
    ensures forall i | 0 <= i < |r| :: r[i].status == Active ==> now <= r[i].deadline
  {
    if ps == [] then []
    else [ReconcileOne(ps[0], now)] + Reconcile(ps[1..], now)
  }

  /** Reconciling is idempotent. */
  lemma ReconcileIdempotent(ps: seq<Proposal>, now: int)
    ensures Reconcile(Reconcile(ps, now), now) == Reconcile(ps, now)
  {
  }

  /** A check at an earlier time is subsumed by a check at a later time:
      expiry only ever moves forward. */
  lemma ReconcileLater(ps: seq<Proposal>, t1: int, t2: int)
    requires t1 <= t2
    ensures Reconcile(Reconcile(ps, t1), t2) == Reconcile(ps, t2)
  {
  }

  /** The expiry check only ever moves a proposal from Active to Expired;
      Closed and Expired proposals are never changed by it. */
  lemma ReconcileTransitions(ps: seq<Proposal>, now: int, i: int)
    requires 0 <= i < |ps|
    ensures Reconcile(ps, now)[i].status != ps[i].status ==>
              ps[i].status == Active && Reconcile(ps, now)[i].status == Expired
    ensures ps[i].status != Active ==> Reconcile(ps, now)[i].status == ps[i].status
  {
  }

  // ---------------------------------------------------------------------------
  // Aggregates

  datatype VoteCounts = VoteCounts(yes: nat, no: nat, abstain: nat)

  function Total(t: VoteCounts): nat {
    t.yes + t.no + t.abstain
  }

  /** The votes cast on proposal `pid`, in stored order. */
  function VotesOn(votes: seq<Vote>, pid: int): (r: seq<Vote>)
    ensures forall v | v in r :: v.proposalId == pid && v in votes
    ensures forall v | v in votes && v.proposalId == pid :: v in r
    ensures forall v :: multiset(r)[v] == if v.proposalId == pid then multiset(votes)[v] else 0
    ensures IsSubsequence(r, votes)
  {
    var keep := (v: Vote) => v.proposalId == pid;
    FilterMembership(votes, keep);
    FilterMultiset(votes, keep);
    Filter(votes, keep)
  }

  /** The votes on proposal `pid` that chose `option`, in stored order. */
  function OptionVotes(votes: seq<Vote>, pid: int, option: VoteOption): (r: seq<Vote>)
    ensures forall v | v in r :: v.proposalId == pid && v.vote == option && v in votes
    ensures forall v | v in votes && v.proposalId == pid && v.vote == option :: v in r
    ensures forall v :: multiset(r)[v] == if v.proposalId == pid && v.vote == option then multiset(votes)[v] else 0
    ensures IsSubsequence(r, votes)
  {
    var keep := (v: Vote) => v.proposalId == pid && v.vote == option;
    FilterMembership(votes, keep);
    FilterMultiset(votes, keep);
    Filter(votes, keep)
  }

  /** The comments on proposal `pid`, in stored order. */
  function CommentsOn(comments: seq<Comment>, pid: int): (r: seq<Comment>)
    ensures forall c | c in r :: c.proposalId == pid && c in comments
    ensures forall c | c in comments && c.proposalId == pid :: c in r
    ensures forall c :: multiset(r)[c] == if c.proposalId == pid then multiset(comments)[c] else 0
    ensures IsSubsequence(r, comments)
  {
    var keep := (c: Comment) => c.proposalId == pid;
    FilterMembership(comments, keep);
    FilterMultiset(comments, keep);
    Filter(comments, keep)
  }

  /** The `votes: { yes, no, abstain }` record of a listed proposal. */
  function Tally(votes: seq<Vote>, pid: int): VoteCounts {
    VoteCounts(
      |OptionVotes(votes, pid, Yes)|,
      |OptionVotes(votes, pid, No)|,
      |OptionVotes(votes, pid, Abstain)|)
  }

  /** The three option counts add up to the number of votes on the proposal. */
  lemma {:induction false} TallySum(votes: seq<Vote>, pid: int)
    ensures Total(Tally(votes, pid)) == |VotesOn(votes, pid)|
  {
    if votes != [] {
      TallySum(votes[1..], pid);
    }
  }

  /** A proposal as `getProposals` lists it: the stored record plus its tally
      and comment count. */
  datatype ProposalView = ProposalView(proposal: Proposal, votes: VoteCounts, commentCount: nat)

  function View(p: Proposal, votes: seq<Vote>, comments: seq<Comment>): (v: ProposalView)
    ensures v.proposal == p
    ensures v.votes.yes == |OptionVotes(votes, p.id, Yes)|
    ensures v.votes.no == |OptionVotes(votes, p.id, No)|
    ensures v.votes.abstain == |OptionVotes(votes, p.id, Abstain)|
    ensures Total(v.votes) == |VotesOn(votes, p.id)|
    ensures v.commentCount == |CommentsOn(comments, p.id)|
  {
    TallySum(votes, p.id);
    ProposalView(p, Tally(votes, p.id), |CommentsOn(comments, p.id)|)
  }

  /** `getProposals`: expire overdue proposals in the store, then list every
      proposal, in stored order, with its tally and comment count. */
  function GetProposals(s: Store, now: int): (r: Reply<seq<ProposalView>>)
    ensures r.store == s.(proposals := r.store.proposals)
    ensures |r.store.proposals| == |s.proposals|
    ensures forall i | 0 <= i < |s.proposals| :: ReconciledFrom(s.proposals[i], r.store.proposals[i], now)
    ensures |r.value| == |s.proposals|
    ensures forall i | 0 <= i < |r.value| :: r.value[i].proposal == r.store.proposals[i]
    ensures forall i | 0 <= i < |r.value| :: r.value[i].votes == Tally(s.votes, r.value[i].proposal.id)
    ensures forall i | 0 <= i < |r.value| ::
              Total(r.value[i].votes) == |VotesOn(s.votes, r.value[i].proposal.id)|
    ensures forall i | 0 <= i < |r.value| ::
              r.value[i].commentCount == |CommentsOn(s.comments, r.value[i].proposal.id)|
    ensures Valid(s) ==> Valid(r.store)
  {
    var ps := Reconcile(s.proposals, now);
    assert forall i | 0 <= i < |ps| :: ProposalId(ps[i]) == ProposalId(s.proposals[i]);
    Reply(s.(proposals := ps), seq(|ps|, i requires 0 <= i < |ps| => View(ps[i], s.votes, s.comments)))
  }

  // ---------------------------------------------------------------------------
  // Details of one proposal

  /** The record `getProposalById` returns: the proposal with all its votes
      and its comments, newest first. */
  datatype ProposalDetails = ProposalDetails(proposal: Proposal, votes: seq<Vote>, comments: seq<Comment>)

  function CommentTime(c: Comment): int { c.createdAt }

  /** `getProposalById`: `None` when no proposal has the id; otherwise the
      first such proposal is expiry-checked in the store (and only it) and
      returned with its votes in stored order and its comments sorted newest
      first (ties in stored order). */
  function GetProposalById(s: Store, id: int, now: int): (r: Reply<Option<ProposalDetails>>)
    ensures r.value.None? <==> forall j | 0 <= j < |s.proposals| :: s.proposals[j].id != id
    ensures r.value.None? ==> r.store == s
    ensures r.value.Some? ==>
              var k := IndexOfId(s.proposals, ProposalId, id).value;
              var d := r.value.value;
              && d.proposal.id == id
              && ReconciledFrom(s.proposals[k], d.proposal, now)
              && r.store == s.(proposals := s.proposals[k := d.proposal])
              && d.votes == VotesOn(s.votes, id)
              && SortedDesc(d.comments, CommentTime)
              && multiset(d.comments) == multiset(CommentsOn(s.comments, id))
              && forall t :: Filter(d.comments, KeyIs(CommentTime, t))
                             == Filter(CommentsOn(s.comments, id), KeyIs(CommentTime, t))
    ensures Valid(s) ==> Valid(r.store)
  {
    match IndexOfId(s.proposals, ProposalId, id)
    case None => Reply(s, None)
    case Some(k) =>
      var p := ReconcileOne(s.proposals[k], now);
      var ps := s.proposals[k := p];
      assert Valid(s) ==> Valid(s.(proposals := ps)) by {
        if Valid(s) { ReplaceProposalValid(s, k, p); }
      }
      var cs := CommentsOn(s.comments, id);
      var sorted := SortDesc(cs, CommentTime);
      assert forall t :: Filter(sorted, KeyIs(CommentTime, t)) == Filter(cs, KeyIs(CommentTime, t)) by {
        forall t {
          SortDescStable(cs, CommentTime, t);
        }
      }
      Reply(s.(proposals := ps), Some(ProposalDetails(p, VotesOn(s.votes, id), sorted)))
  }

  /** The detail view agrees with the list view: when ids are unique, the
      proposal `getProposalById` returns is the one `getProposals` lists at
      its position, and its vote list has as many votes as the listed tally. */
  lemma DetailsAgreeWithList(s: Store, k: nat, now: int)
    requires UniqueIds(s.proposals, ProposalId)
    requires k < |s.proposals|
    ensures var d := GetProposalById(s, s.proposals[k].id, now).value;
            var l := GetProposals(s, now).value;
            && d.Some?
            && d.value.proposal == l[k].proposal
            && |d.value.votes| == Total(l[k].votes)
            && |d.value.comments| == l[k].commentCount
  {
    UniqueIndexOfId(s.proposals, ProposalId, k);
    var d := GetProposalById(s, s.proposals[k].id, now).value.value;
    assert |d.comments| == |multiset(d.comments)|;
  }
}
