/** `useVotableProposals` of hooks/useVotableProposals.ts: the active proposals
    the connected account has not voted on yet. The proposals and the account
    address (absent when no wallet is connected) are inputs here; the hooks
    that supply them are not part of this model. */
module VotableProposals {
  import opened Util
  import opened Subgraph

  predicate HasUpperAscii(s: string) {
    exists i :: 0 <= i < |s| && 'A' <= s[i] <= 'Z'
  }

  /** `s.toLowerCase()`, on ASCII letters. */
  function ToLower(s: string): (r: string)
    ensures |r| == |s| && !HasUpperAscii(r)
    ensures forall i :: 0 <= i < |s| && !('A' <= s[i] <= 'Z') ==> r[i] == s[i]
    ensures forall i :: 0 <= i < |s| && 'A' <= s[i] <= 'Z' ==> r[i] == (s[i] as int + 32) as char
  {
    seq(|s|, i requires 0 <= i < |s| => LowerAscii(s[i]))
  }

  /** Lowering twice is lowering once; a string without capitals is its own lower case. */
  lemma ToLowerFixesLower(s: string)
    ensures !HasUpperAscii(s) ==> ToLower(s) == s
    ensures ToLower(ToLower(s)) == ToLower(s)
  {
    if !HasUpperAscii(s) {
      assert forall i :: 0 <= i < |s| ==> ToLower(s)[i] == s[i];
    }
    var t := ToLower(s);
    assert forall i :: 0 <= i < |t| ==> ToLower(t)[i] == t[i];
  }

  /** `address?.toLowerCase()`. */
  function AddressKey(address: Option<string>): (key: Option<string>)
    ensures key.None? <==> address.None?
    ensures key.Some? ==> key.value == ToLower(address.value)
  {
    match address
    case None => None
    case Some(a) => Some(ToLower(a))
  }

  /** `proposal.votes.some(vote => vote.voter.id === key)` for the lowered
      address `key`: with no address the comparison is with `undefined`,
      which no id equals. */
  predicate VotedAs(proposal: Proposal, key: Option<string>) {
    match key
    case None => false
    case Some(k) => Any(proposal.votes, (v: Vote) => v.voter == k)
  }

  predicate HasVoted(proposal: Proposal, address: Option<string>) {
    VotedAs(proposal, AddressKey(address))
  }

  /** The test the filter applies to each proposal. */
  function NotVotedAs(key: Option<string>): Proposal -> bool {
    p => !VotedAs(p, key)
  }

  /** The hook's result. */
  function Votable(proposals: seq<Proposal>, address: Option<string>): (r: seq<Proposal>)
    ensures |r| <= |proposals|
  {
    Filter(proposals, NotVotedAs(AddressKey(address)))
  }

  /** A proposal has been voted on by a connected address exactly when one of
      its votes carries that address, lower-cased, as its voter id. */
  lemma HasVotedIff(proposal: Proposal, a: string)
    ensures HasVoted(proposal, Some(a)) <==>
      exists i :: 0 <= i < |proposal.votes| && proposal.votes[i].voter == ToLower(a)
  {
    var key := ToLower(a);
    AnyIff(proposal.votes, (v: Vote) => v.voter == key);
  }

  /** The result keeps the order of the input and only deletes proposals. */
  lemma VotableIsSubsequence(proposals: seq<Proposal>, address: Option<string>)
    ensures IsSubsequence(Votable(proposals, address), proposals)
  {
    FilterIsSubsequence(proposals, NotVotedAs(AddressKey(address)));
  }

  /** A proposal is kept exactly when none of its votes was cast by the
      connected address (and every copy of it is then kept). */
  lemma VotableKeptIff(proposals: seq<Proposal>, a: string, p: Proposal)
    ensures p in Votable(proposals, Some(a)) <==>
      p in proposals && forall i :: 0 <= i < |p.votes| ==> p.votes[i].voter != ToLower(a)
    ensures multiset(Votable(proposals, Some(a)))[p] ==
      if HasVoted(p, Some(a)) then 0 else multiset(proposals)[p]
  {
    FilterMembership(proposals, NotVotedAs(AddressKey(Some(a))), p);
    FilterMultiplicity(proposals, NotVotedAs(AddressKey(Some(a))), p);
    HasVotedIff(p, a);
  }

  /** Without a connected wallet every proposal is votable. */
  lemma NoAddressKeepsAll(proposals: seq<Proposal>)
    ensures Votable(proposals, None) == proposals
  {
    FilterKeepsAll(proposals, NotVotedAs(None));
  }

  /** Only the address is lower-cased: a vote whose stored voter id has a
      capital letter never counts, whatever the address. */
  lemma CapitalisedVoterNeverMatches(proposal: Proposal, a: string)
    requires forall i :: 0 <= i < |proposal.votes| ==> HasUpperAscii(proposal.votes[i].voter)
    ensures !HasVoted(proposal, Some(a))
  {
    HasVotedIff(proposal, a);
  }

  /** The case in which the address is written does not matter. */
  lemma AddressCaseIrrelevant(proposals: seq<Proposal>, a: string)
    ensures Votable(proposals, Some(a)) == Votable(proposals, Some(ToLower(a)))
  {
    ToLowerFixesLower(a);
  }

  /** Filtering an already filtered list changes nothing. */
  lemma VotableIdempotent(proposals: seq<Proposal>, address: Option<string>)
    ensures Votable(Votable(proposals, address), address) == Votable(proposals, address)
  {
    FilterIdempotent(proposals, NotVotedAs(AddressKey(address)));
  }
}
