/** The records the pages receive from the indexing service: a vote, and a
    proposal with the votes cast on it. The vote split of the home page and the
    hook's filter read only `support` and the voter's id; the other fields are
    carried as they arrive. The page reads a proposal's id and title. The hook's
    proposals come from a generated query type rather than the service's
    `Proposal`, and the hook reads only their votes; one record stands for both. */
module Subgraph {
  import opened Util

  /** One vote. `support` is tri-state: `Some(true)` for, `Some(false)` against,
      `None` for an abstention or a missing flag. `voter` is the voter's id
      (`vote.voter.id`) exactly as the service stores it. */
  datatype Vote = Vote(
    id: string,
    voter: string,
    support: Option<bool>,
    votes: nat,
    reason: string,
    blockNumber: nat
  )

  /** One proposal with the votes cast on it. */
  datatype Proposal = Proposal(id: string, title: string, votes: seq<Vote>)
}
