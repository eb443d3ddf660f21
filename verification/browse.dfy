/** The client-side browsing logic of the proposal list: the tag toggle and
    the filter-then-sort pipeline over the proposals `getProposals` listed. */
module Browse {
  import opened Seqs
  import opened Store
  import opened Lifecycle

  // ---------------------------------------------------------------------------
  // Tag toggle

  function Elements(tags: seq<string>): set<string> {
    set t | t in tags
  }

  /** `handleToggleTag`: an active tag is switched off (every occurrence
      removed), any other tag is switched on (appended at the end). */
  function ToggleTag(active: seq<string>, tag: string): (r: seq<string>)
    ensures tag in r <==> tag !in active
    ensures forall t | t != tag :: t in r <==> t in active
    ensures tag in active ==> IsSubsequence(r, active)
    ensures tag in active ==> forall t | t != tag :: multiset(r)[t] == multiset(active)[t]
    ensures tag !in active ==> r == active + [tag]
  {
    if tag in active then
      assert forall t | t != tag :: multiset(RemoveAll(active, tag))[t] == multiset(active)[t] by {
        forall t | t != tag {
          RemoveAllCount(active, tag, t);
        }
      }
      RemoveAll(active, tag)
    else active + [tag]
  }

  /** Toggling the same tag twice gives back the same set of active tags,
      and the very same list when the tag was off to begin with. */
  lemma ToggleTwice(active: seq<string>, tag: string)
    ensures Elements(ToggleTag(ToggleTag(active, tag), tag)) == Elements(active)
    ensures tag !in active ==> ToggleTag(ToggleTag(active, tag), tag) == active
  {
    if tag !in active {
      RemoveAfterAppend(active, tag);
    }
  }

  // ---------------------------------------------------------------------------
  // Case-insensitive substring search

  predicate IsUpper(c: char) { 'A' <= c <= 'Z' }

  /** `toLowerCase` on the ASCII letters. */
  function LowerChar(c: char): char {
    if IsUpper(c) then (c as int + 32) as char else c
  }

  /** `toLowerCase`: no upper-case ASCII letter is left, each one is
      replaced by its lower-case partner in place, and every other
      character is kept as it is. */
  function Lower(s: string): (r: string)
    ensures |r| == |s|
    ensures forall i | 0 <= i < |r| :: !IsUpper(r[i])
    ensures forall i | 0 <= i < |s| && !IsUpper(s[i]) :: r[i] == s[i]
    ensures forall i | 0 <= i < |s| && IsUpper(s[i]) :: r[i] as int == s[i] as int + 32
  {
    Map(s, LowerChar)
  }

  /** Lower-casing is idempotent. */
  lemma LowerIdempotent(s: string)
    ensures Lower(Lower(s)) == Lower(s)
  {
  }

  /** `needle` occurs in `hay` starting at position `i`. */
  predicate OccursAt(needle: string, hay: string, i: nat) {
    i + |needle| <= |hay| && hay[i..i + |needle|] == needle
  }

  /** `String.prototype.includes`, scanning the positions left to right. */
  function Includes(hay: string, needle: string): (r: bool)
    ensures r <==> exists i: nat :: OccursAt(needle, hay, i)
    decreases |hay|
  {
    if |hay| < |needle| then false
    else if needle <= hay then
      assert OccursAt(needle, hay, 0);
      true
    else
      var rest := Includes(hay[1..], needle);
      assert !OccursAt(needle, hay, 0);
      assert (exists i: nat :: OccursAt(needle, hay[1..], i)) <==> (exists i: nat :: OccursAt(needle, hay, i)) by {
        forall i: nat | 1 <= i && OccursAt(needle, hay, i)
          ensures OccursAt(needle, hay[1..], i - 1)
        {
          SliceOfTail(hay, i - 1, |needle|);
        }
        forall i: nat | OccursAt(needle, hay[1..], i)
          ensures OccursAt(needle, hay, i + 1)
        {
          SliceOfTail(hay, i, |needle|);
        }
      }
      rest
  }

  lemma SliceOfTail(hay: string, i: nat, n: nat)
    requires 1 <= |hay| && i + n <= |hay| - 1
    ensures hay[1..][i..i + n] == hay[i + 1..i + 1 + n]
  {
    var a := hay[1..][i..i + n];
    var b := hay[i + 1..i + 1 + n];
    assert |a| == |b|;
    forall k | 0 <= k < n
      ensures a[k] == b[k]
    {
      assert a[k] == hay[1..][i + k] == hay[i + 1 + k];
    }
  }

  // ---------------------------------------------------------------------------
  // The filters

  /** The status select: `'all'` or one status. */
  datatype StatusFilter = AllStatuses | OnlyStatus(status: ProposalStatus)

  /** The sort select. `Newest` orders by creation time, newest first;
      `EndingSoon` puts Active proposals first, earliest deadline first;
      `Unsorted` stands for any other value of the select, for which the
      comparator always answers 0 and the filtered order stays as it is. */
  datatype SortBy = Newest | EndingSoon | Unsorted

  predicate StatusMatches(filter: StatusFilter, p: Proposal) {
    filter.AllStatuses? || p.status == filter.status
  }

  /** The tag filter: with no active tag every proposal passes; otherwise a
      proposal passes when it carries each active tag. */
  predicate TagsMatch(active: seq<string>, p: Proposal) {
    |active| == 0 || forall i | 0 <= i < |active| :: active[i] in p.tags
  }

  predicate SearchMatches(term: string, p: Proposal) {
    Includes(Lower(p.title), Lower(term)) || Includes(Lower(p.description), Lower(term))
  }

  function ByStatus(views: seq<ProposalView>, filter: StatusFilter): (r: seq<ProposalView>)
    ensures forall v | v in r :: v in views && StatusMatches(filter, v.proposal)
    ensures forall v | v in views && StatusMatches(filter, v.proposal) :: v in r
    ensures forall v :: multiset(r)[v] == if StatusMatches(filter, v.proposal) then multiset(views)[v] else 0
    ensures IsSubsequence(r, views)
  {
    var keep := (v: ProposalView) => StatusMatches(filter, v.proposal);
    FilterMembership(views, keep);
    FilterMultiset(views, keep);
    Filter(views, keep)
  }

  function ByTags(views: seq<ProposalView>, active: seq<string>): (r: seq<ProposalView>)
    ensures forall v | v in r :: v in views && TagsMatch(active, v.proposal)
    ensures forall v | v in views && TagsMatch(active, v.proposal) :: v in r
    ensures forall v :: multiset(r)[v] == if TagsMatch(active, v.proposal) then multiset(views)[v] else 0
    ensures IsSubsequence(r, views)
  {
    var keep := (v: ProposalView) => TagsMatch(active, v.proposal);
    FilterMembership(views, keep);
    FilterMultiset(views, keep);
    Filter(views, keep)
  }

  function BySearch(views: seq<ProposalView>, term: string): (r: seq<ProposalView>)
    ensures forall v | v in r :: v in views && SearchMatches(term, v.proposal)
    ensures forall v | v in views && SearchMatches(term, v.proposal) :: v in r
    ensures forall v :: multiset(r)[v] == if SearchMatches(term, v.proposal) then multiset(views)[v] else 0
    ensures IsSubsequence(r, views)
  {
    var keep := (v: ProposalView) => SearchMatches(term, v.proposal);
    FilterMembership(views, keep);
    FilterMultiset(views, keep);
    Filter(views, keep)
  }

  /** The status filter set to `'all'` keeps the whole list. */
  lemma AllStatusesKeepsAll(views: seq<ProposalView>)
    ensures ByStatus(views, AllStatuses) == views
  {
    FilterKeepsAll(views, (v: ProposalView) => StatusMatches(AllStatuses, v.proposal));
  }

  /** With no active tag, the tag filter keeps the whole list. */
  lemma NoTagsKeepsAll(views: seq<ProposalView>)
    ensures ByTags(views, []) == views
  {
    FilterKeepsAll(views, (v: ProposalView) => TagsMatch([], v.proposal));
  }

  /** An empty search term keeps the whole list. */
  lemma EmptySearchKeepsAll(views: seq<ProposalView>)
    ensures BySearch(views, "") == views
  {
    forall v: ProposalView
      ensures SearchMatches("", v.proposal)
    {
      assert Lower("") <= Lower(v.proposal.title);
    }
    FilterKeepsAll(views, (v: ProposalView) => SearchMatches("", v.proposal));
  }

  function ViewCreatedAt(v: ProposalView): int { v.proposal.createdAt }

  /** The three filters of `filteredAndSortedProposals`, in their order. */
  function Filtered(views: seq<ProposalView>, status: StatusFilter, term: string,
                    active: seq<string>): (r: seq<ProposalView>)
    ensures forall v | v in r ::
              v in views && StatusMatches(status, v.proposal) && TagsMatch(active, v.proposal)
              && SearchMatches(term, v.proposal)
    ensures forall v | v in views && StatusMatches(status, v.proposal) && TagsMatch(active, v.proposal)
                       && SearchMatches(term, v.proposal) :: v in r
    ensures forall v :: multiset(r)[v]
                     == if StatusMatches(status, v.proposal) && TagsMatch(active, v.proposal)
                           && SearchMatches(term, v.proposal)
                        then multiset(views)[v] else 0
    ensures IsSubsequence(r, views)
  {
    var f1 := ByStatus(views, status);
    var f2 := ByTags(f1, active);
    var f3 := BySearch(f2, term);
    SubsequenceTransitive(f3, f2, f1);
    SubsequenceTransitive(f3, f1, views);
    f3
  }

  // ---------------------------------------------------------------------------
  // The 'ending_soon' order

  /** The `'ending_soon'` comparator as written; a negative answer puts `a`
      before `b`. A non-Active `a` answers 1 whatever `b` is. */
  function EndingSoonCompare(a: Proposal, b: Proposal): int {
    if a.status != Active then 1
    else if b.status != Active then -1
    else a.deadline - b.deadline
  }

  /** The comparator as written is not consistent: two proposals that are
      both not Active each compare as coming after the other, so the order
      `Array.prototype.sort` gives them is implementation-defined. */
  lemma EndingSoonCompareInconsistent(a: Proposal, b: Proposal)
    requires a.status != Active && b.status != Active
    ensures EndingSoonCompare(a, b) > 0 && EndingSoonCompare(b, a) > 0
  {
  }

  /** The comparator the `'ending_soon'` option evidently intends: Active
      proposals first, earliest deadline first; the others tie. */
  function EndingSoonOrder(a: Proposal, b: Proposal): int {
    if a.status != Active && b.status != Active then 0
    else if a.status != Active then 1
    else if b.status != Active then -1
    else a.deadline - b.deadline
  }

  function Sign(x: int): int {
    if x < 0 then -1 else if x > 0 then 1 else 0
  }

  /** The corrected comparator differs from the written one only on pairs of
      non-Active proposals, and it is consistent: swapping the operands flips
      the sign, and "not after" is transitive. */
  lemma EndingSoonOrderConsistent(a: Proposal, b: Proposal, c: Proposal)
    ensures a.status == Active || b.status == Active ==> EndingSoonOrder(a, b) == EndingSoonCompare(a, b)
    ensures Sign(EndingSoonOrder(a, b)) == -Sign(EndingSoonOrder(b, a))
    ensures EndingSoonOrder(a, b) <= 0 && EndingSoonOrder(b, c) <= 0 ==> EndingSoonOrder(a, c) <= 0
  {
  }

  predicate ViewActive(v: ProposalView) { v.proposal.status == Active }

  predicate ViewInactive(v: ProposalView) { v.proposal.status != Active }

  /** Descending by this key is ascending by deadline. */
  function ViewNegDeadline(v: ProposalView): int { -v.proposal.deadline }

  /** The stable sort under the corrected `'ending_soon'` comparator: every
      pair comes out in comparator order, nothing is lost or duplicated, and
      the non-Active proposals keep their listed order. */
  function SortEndingSoon(views: seq<ProposalView>): (r: seq<ProposalView>)
    ensures multiset(r) == multiset(views)
    ensures forall i, j | 0 <= i < j < |r| :: EndingSoonOrder(r[i].proposal, r[j].proposal) <= 0
    ensures Filter(r, ViewInactive) == Filter(views, ViewInactive)
  {
    var act := Filter(views, ViewActive);
    var rest := Filter(views, ViewInactive);
    var sorted := SortDesc(act, ViewNegDeadline);
    FilterPartition(views, ViewActive, ViewInactive);
    AllActive(sorted, act);
    EndingSoonSorted(sorted, rest);
    FilterAppend(sorted, rest, ViewInactive);
    FilterKeepsNone(sorted, ViewInactive);
    FilterKeepsAll(rest, ViewInactive);
    sorted + rest
  }

  lemma SortEndingSoonParts(views: seq<ProposalView>)
    ensures SortEndingSoon(views)
         == SortDesc(Filter(views, ViewActive), ViewNegDeadline) + Filter(views, ViewInactive)
  {
  }

  /** A permutation of Active proposals holds only Active proposals. */
  lemma AllActive(r: seq<ProposalView>, act: seq<ProposalView>)
    requires multiset(r) == multiset(act)
    requires forall i | 0 <= i < |act| :: ViewActive(act[i])
    ensures forall i | 0 <= i < |r| :: ViewActive(r[i])
  {
    forall i | 0 <= i < |r|
      ensures ViewActive(r[i])
    {
      assert r[i] in multiset(act);
      var k :| 0 <= k < |act| && act[k] == r[i];
    }
  }

  lemma EndingSoonSorted(sorted: seq<ProposalView>, rest: seq<ProposalView>)
    requires SortedDesc(sorted, ViewNegDeadline)
    requires forall i | 0 <= i < |sorted| :: ViewActive(sorted[i])
    requires forall i | 0 <= i < |rest| :: ViewInactive(rest[i])
    ensures var r := sorted + rest;
            forall i, j | 0 <= i < j < |r| :: EndingSoonOrder(r[i].proposal, r[j].proposal) <= 0
  {
    var r := sorted + rest;
    forall i, j | 0 <= i < j < |r|
      ensures EndingSoonOrder(r[i].proposal, r[j].proposal) <= 0
    {
      if j < |sorted| {
        assert ViewNegDeadline(sorted[i]) >= ViewNegDeadline(sorted[j]);
      } else if i >= |sorted| {
        assert ViewInactive(rest[i - |sorted|]) && ViewInactive(rest[j - |sorted|]);
      } else {
        assert ViewActive(sorted[i]) && ViewInactive(rest[j - |sorted|]);
      }
    }
  }

  /** Active proposals with the same deadline keep their listed order (the
      key `k` is the negated deadline). */
  lemma EndingSoonStable(views: seq<ProposalView>, k: int)
    ensures var due := KeyIs(ViewNegDeadline, k);
            Filter(Filter(SortEndingSoon(views), ViewActive), due) == Filter(Filter(views, ViewActive), due)
  {
    var act := Filter(views, ViewActive);
    var rest := Filter(views, ViewInactive);
    var sorted := SortDesc(act, ViewNegDeadline);
    var due := KeyIs(ViewNegDeadline, k);
    calc {
      Filter(Filter(SortEndingSoon(views), ViewActive), due);
      { SortEndingSoonParts(views); }
      Filter(Filter(sorted + rest, ViewActive), due);
      { FilterAppendNone(sorted, rest, ViewActive); }
      Filter(Filter(sorted, ViewActive), due);
      { AllActive(sorted, act); FilterKeepsAll(sorted, ViewActive); }
      Filter(sorted, due);
      { SortDescStable(act, ViewNegDeadline, k); }
      Filter(act, due);
    }
  }

  /** `filteredAndSortedProposals`: status filter, tag filter, search filter,
      then the chosen sort. The result holds exactly the listed proposals
      that pass all three filters, never one more often than the input does;
      under `Newest` it is ordered newest first, under `EndingSoon` it follows
      the corrected comparator, otherwise it keeps the input order. */
  function FilterAndSort(views: seq<ProposalView>, sortBy: SortBy, status: StatusFilter,
                         term: string, active: seq<string>): (r: seq<ProposalView>)
    ensures forall v | v in r ::
              v in views && StatusMatches(status, v.proposal) && TagsMatch(active, v.proposal)
              && SearchMatches(term, v.proposal)
    ensures forall v | v in views && StatusMatches(status, v.proposal) && TagsMatch(active, v.proposal)
                       && SearchMatches(term, v.proposal) :: v in r
    ensures multiset(r) == multiset(Filtered(views, status, term, active))
    ensures multiset(r) <= multiset(views)
    ensures sortBy == Newest ==> SortedDesc(r, ViewCreatedAt)
    ensures sortBy == EndingSoon ==>
              forall i, j | 0 <= i < j < |r| :: EndingSoonOrder(r[i].proposal, r[j].proposal) <= 0
    ensures sortBy == Unsorted ==> IsSubsequence(r, views)
  {
    var f := Filtered(views, status, term, active);
    SubsequenceMultiset(f, views);
    match sortBy
    case Newest =>
      var r := SortDesc(f, ViewCreatedAt);
      assert forall v | v in r :: v in multiset(f);
      assert forall v | v in f :: v in multiset(r);
      r
    case EndingSoon =>
      var r := SortEndingSoon(f);
      assert forall v | v in r :: v in multiset(f);
      assert forall v | v in f :: v in multiset(r);
      r
    case Unsorted => f
  }

  /** Under `Newest`, proposals created at the same moment keep their
      listed order. */
  lemma NewestIsStable(views: seq<ProposalView>, status: StatusFilter, term: string,
                       active: seq<string>, t: int)
    ensures Filter(FilterAndSort(views, Newest, status, term, active), KeyIs(ViewCreatedAt, t))
         == Filter(FilterAndSort(views, Unsorted, status, term, active), KeyIs(ViewCreatedAt, t))
  {
    SortDescStable(FilterAndSort(views, Unsorted, status, term, active), ViewCreatedAt, t);
  }
}
