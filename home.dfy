/** The home page of pages/index.tsx: the proposal selection and the for/against
    split of its votes, the heading and the view chosen from the selection, and
    the props built at generation time. Fetches are left out: the request a
    selection issues is returned, and the votes it brings back are passed in. */
module Home {
  import opened Util
  import opened Subgraph

  predicate IsFor(v: Vote) {
    v.support == Some(true)
  }

  predicate IsAgainst(v: Vote) {
    v.support == Some(false)
  }

  /** Neither for nor against: an abstention, or a vote without a support flag. */
  predicate IsAbstention(v: Vote) {
    v.support.None?
  }

  /** The fetched votes whose support is strictly `true`. */
  function ForVotes(all: seq<Vote>): (r: seq<Vote>)
    ensures forall i :: 0 <= i < |r| ==> IsFor(r[i])
  {
    Filter(all, IsFor)
  }

  /** The fetched votes whose support is strictly `false`. */
  function AgainstVotes(all: seq<Vote>): (r: seq<Vote>)
    ensures forall i :: 0 <= i < |r| ==> IsAgainst(r[i])
  {
    Filter(all, IsAgainst)
  }

  /** The votes that land in neither list. */
  function Abstentions(all: seq<Vote>): (r: seq<Vote>)
    ensures forall i :: 0 <= i < |r| ==> IsAbstention(r[i])
  {
    Filter(all, IsAbstention)
  }

  /** `ForVotes` is exactly the supporting votes: it keeps their order, and holds
      every copy of each supporting vote and nothing else. */
  lemma ForVotesExact(all: seq<Vote>, v: Vote)
    ensures IsSubsequence(ForVotes(all), all)
    ensures v in ForVotes(all) <==> v in all && v.support == Some(true)
    ensures multiset(ForVotes(all))[v] == if v.support == Some(true) then multiset(all)[v] else 0
  {
    FilterIsSubsequence(all, IsFor);
    FilterMembership(all, IsFor, v);
    FilterMultiplicity(all, IsFor, v);
  }

  /** `AgainstVotes` is exactly the opposing votes, in their order. */
  lemma AgainstVotesExact(all: seq<Vote>, v: Vote)
    ensures IsSubsequence(AgainstVotes(all), all)
    ensures v in AgainstVotes(all) <==> v in all && v.support == Some(false)
    ensures multiset(AgainstVotes(all))[v] == if v.support == Some(false) then multiset(all)[v] else 0
  {
    FilterIsSubsequence(all, IsAgainst);
    FilterMembership(all, IsAgainst, v);
    FilterMultiplicity(all, IsAgainst, v);
  }

  /** No vote is in both lists, and an abstention is in neither. */
  lemma SplitIsDisjoint(all: seq<Vote>, v: Vote)
    ensures !(v in ForVotes(all) && v in AgainstVotes(all))
    ensures v.support.None? ==> v !in ForVotes(all) && v !in AgainstVotes(all)
  {
    FilterMembership(all, IsFor, v);
    FilterMembership(all, IsAgainst, v);
  }

  /** Every fetched vote is counted exactly once: for, against, or neither. */
  lemma {:induction false} SplitSizes(all: seq<Vote>)
    ensures |ForVotes(all)| + |AgainstVotes(all)| + |Abstentions(all)| == |all|
  {
    if all != [] {
      var v, rest := all[0], all[1..];
      SplitSizes(rest);
      assert |ForVotes(all)| == (if IsFor(v) then 1 else 0) + |ForVotes(rest)|;
      assert |AgainstVotes(all)| == (if IsAgainst(v) then 1 else 0) + |AgainstVotes(rest)|;
      assert |Abstentions(all)| == (if IsAbstention(v) then 1 else 0) + |Abstentions(rest)|;
      assert v.support == Some(true) || v.support == Some(false) || v.support == None by {
        if v.support.Some? { assert v.support.value || !v.support.value; }
      }
    }
  }

  const ProposalVotesEndpoint := "/api/getProposalVotes?proposalId="

  /** The address the votes of proposal `id` are fetched from. */
  function ProposalVotesRequest(id: string): (url: string)
    ensures |url| == |ProposalVotesEndpoint| + |id|
    ensures url[..|ProposalVotesEndpoint|] == ProposalVotesEndpoint
    ensures url[|ProposalVotesEndpoint|..] == id
  {
    ProposalVotesEndpoint + id
  }

  /** Different proposals are fetched from different addresses. */
  lemma ProposalVotesRequestInjective(a: string, b: string)
    ensures ProposalVotesRequest(a) == ProposalVotesRequest(b) ==> a == b
  {
    if ProposalVotesRequest(a) == ProposalVotesRequest(b) {
      assert a == ProposalVotesRequest(a)[|ProposalVotesEndpoint|..];
      assert b == ProposalVotesRequest(b)[|ProposalVotesEndpoint|..];
    }
  }

  /** Which of the two lists the split view shows on narrow screens. */
  datatype VoteSide = ForSide | AgainstSide

  /** What the page shows under its heading. */
  datatype View =
    | SplitView(proposal: Proposal, side: VoteSide, forVotes: seq<Vote>, againstVotes: seq<Vote>)
    | PaginatedList(initialVotes: seq<Vote>)

  /** The page's state. `received` is the last vote list handed to
      `ReceiveProposalVotes`; it exists only to state the invariant. */
  class HomeState {
    var selected: Option<Proposal>
    var forVotes: seq<Vote>
    var againstVotes: seq<Vote>
    var mobileVoteType: VoteSide
    ghost var received: seq<Vote>

    /** The two lists are always the for/against split of one fetched list. */
    ghost predicate Valid()
      reads this
    {
      forVotes == ForVotes(received) && againstVotes == AgainstVotes(received)
    }

    /** Nothing selected, both lists empty, the "for" side shown. */
    constructor()
      ensures Valid()
      ensures selected == None && forVotes == [] && againstVotes == [] && mobileVoteType == ForSide
    {
      selected := None;
      forVotes := [];
      againstVotes := [];
      mobileVoteType := ForSide;
      received := [];
    }

    /** The part of `loadProposalVotes` before its fetch: the selection is
        recorded first, then `null` stops there with no request, and a proposal
        yields the request for its votes. The lists are not touched yet. */
    method LoadProposalVotes(proposal: Option<Proposal>) returns (request: Option<string>)
      requires Valid()
      modifies this`selected
      ensures Valid()
      ensures selected == proposal
      ensures request.None? <==> proposal.None?
      ensures proposal.Some? ==> request == Some(ProposalVotesRequest(proposal.value.id))
    {
      selected := proposal;
      if proposal.None? {
        return None;
      }
      request := Some(ProposalVotesRequest(proposal.value.id));
    }

    /** The part after the fetch: both lists are replaced by the split of the
        votes that came back. The selection is not consulted, so a late answer to
        an earlier request replaces the lists all the same. */
    method ReceiveProposalVotes(allVotes: seq<Vote>)
      modifies this`forVotes, this`againstVotes, this`received
      ensures Valid() && received == allVotes
      ensures forVotes == ForVotes(allVotes) && againstVotes == AgainstVotes(allVotes)
    {
      var fors := Filter(allVotes, IsFor);
      var againsts := Filter(allVotes, IsAgainst);
      forVotes := fors;
      againstVotes := againsts;
      received := allVotes;
    }

    /** The tab choice of the split view. */
    method SetMobileVoteType(side: VoteSide)
      requires Valid()
      modifies this`mobileVoteType
      ensures Valid()
      ensures mobileVoteType == side
    {
      mobileVoteType := side;
    }

    /** The second heading: the selected proposal's title, or "All", then " Votes". */
    function Heading(): (h: string)
      reads this
      ensures |h| >= 6 && h[|h| - 6..] == " Votes"
      ensures selected.Some? ==> h[..|h| - 6] == selected.value.title
      ensures selected.None? ==> h[..|h| - 6] == "All"
    {
      (if selected.Some? then selected.value.title else "All") + " Votes"
    }

    /** The split view exactly when a proposal is selected, fed from the state;
        otherwise the paginated list of the page's initial votes. */
    function CurrentView(initialVotes: seq<Vote>): (v: View)
      reads this
      ensures v.SplitView? <==> selected.Some?
      ensures v.SplitView? ==> v == SplitView(selected.value, mobileVoteType, forVotes, againstVotes)
      ensures v.PaginatedList? ==> v.initialVotes == initialVotes
    {
      if selected.Some? then SplitView(selected.value, mobileVoteType, forVotes, againstVotes)
      else PaginatedList(initialVotes)
    }
  }

  /** In a valid state the two shown lists never share a vote, and together
      they are no longer than the list they were split from. */
  lemma ShownListsDisjoint(h: HomeState, v: Vote)
    requires h.Valid()
    ensures !(v in h.forVotes && v in h.againstVotes)
    ensures |h.forVotes| + |h.againstVotes| <= |h.received|
  {
    SplitIsDisjoint(h.received, v);
    SplitSizes(h.received);
  }

  /** The props built at generation time, with the page regenerated every 30 seconds. */
  datatype StaticProps = StaticProps(
    initialVotes: seq<Vote>,
    openProposals: seq<Proposal>,
    fallback: map<string, seq<Vote>>,
    revalidate: nat
  )

  const FirstPageKey := "/api/votes?page=1"

  /** `getStaticProps` once its two queries have answered: the latest votes seed
      both the page and the cache entry of the first page of the vote list. */
  function GetStaticProps(votes: seq<Vote>, proposals: seq<Proposal>): (p: StaticProps)
    ensures p.fallback.Keys == {FirstPageKey}
    ensures p.fallback[FirstPageKey] == p.initialVotes == votes
    ensures p.openProposals == proposals && p.revalidate == 30
  {
    StaticProps(votes, proposals, map[FirstPageKey := votes], 30)
  }
}
