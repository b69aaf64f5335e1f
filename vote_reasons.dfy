/** The display rules of components/VoteReasons.tsx for one vote: the support
    label and its colour, the voter's shown name, the reason paragraph and the
    word after the vote count. The ENS name is an input: its lookup is not
    part of this model. */
module VoteReasons {
  import opened Util
  import Linkify

  /** The label shown for the numeric support value `isFor`. */
  function SupportLabel(isFor: int): (word: string)
    ensures word == "FOR" <==> isFor == 1
    ensures word == "AGAINST" <==> isFor == 0
    ensures word == "ABSTAIN" <==> isFor != 0 && isFor != 1
  {
    if isFor == 1 then "FOR" else if isFor == 0 then "AGAINST" else "ABSTAIN"
  }

  /** The colour class of that label, chosen by its own copy of the same test. */
  function SupportColour(isFor: int): (colour: string)
    ensures colour == "text-green-400" <==> isFor == 1
    ensures colour == "text-red-400" <==> isFor == 0
    ensures colour == "text-gray-500" <==> isFor != 0 && isFor != 1
  {
    if isFor == 1 then "text-green-400" else if isFor == 0 then "text-red-400" else "text-gray-500"
  }

  /** The two choices never disagree: each label always comes with its own colour,
      so either one determines the other. */
  lemma LabelAndColourAgree(a: int, b: int)
    ensures (SupportLabel(a), SupportColour(a)) in
      {("FOR", "text-green-400"), ("AGAINST", "text-red-400"), ("ABSTAIN", "text-gray-500")}
    ensures SupportLabel(a) == SupportLabel(b) <==> SupportColour(a) == SupportColour(b)
  {
  }

  /** The voter's shown name: the ENS name when there is a non-empty one,
      otherwise the first eight characters of the address (all of it if shorter). */
  function DisplayName(ensName: Option<string>, address: string): (name: string)
    ensures ensName.Some? && ensName.value != "" ==> name == ensName.value
    ensures !(ensName.Some? && ensName.value != "") ==>
      |name| == (if |address| < 8 then |address| else 8) && name == address[..|name|]
  {
    if ensName.Some? && ensName.value != "" then ensName.value
    else if |address| < 8 then address
    else address[..8]
  }

  const NoReason := "no reason :("

  /** The markup of the reason paragraph: the placeholder for an empty reason,
      otherwise the reason with its URLs linkified. */
  function ReasonHtml(reason: string): (html: string)
    ensures reason == "" ==> html == NoReason
    ensures reason != "" ==> html == Linkify.ReplaceUrlsWithLink(reason)
  {
    if reason == "" then NoReason else Linkify.ReplaceUrlsWithLink(reason)
  }

  /** The text colour of the reason paragraph: dimmer for the placeholder. */
  function ReasonColour(reason: string): (colour: string)
    ensures colour == "text-gray-300" <==> reason != ""
    ensures colour == "text-gray-500" <==> reason == ""
  {
    if reason != "" then "text-gray-300" else "text-gray-500"
  }

  /** A non-empty reason without any URL scheme is shown exactly as written. */
  lemma PlainReasonShownAsWritten(reason: string)
    requires reason != "" && !Linkify.ContainsScheme(reason)
    ensures ReasonHtml(reason) == reason
  {
    Linkify.NoSchemeUnchanged(reason);
  }

  /** The word after the vote count: singular only for exactly one vote. */
  function VoteWord(votes: int): (word: string)
    ensures word == "vote" <==> votes == 1
    ensures word == "votes" <==> votes != 1
  {
    if votes == 1 then "vote" else "votes"
  }
}
