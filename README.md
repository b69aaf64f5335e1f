# nouns-vote-with-reason, modelled in Dafny

A model of the core of *nouns-vote-with-reason*, a small web front end that lists
Nouns DAO votes together with the reasons voters gave. Each vote is shown as a
card. The modelled parts are:

- **The vote card** (`components/VoteReasons.tsx`):
  - how old the vote is, in words (`timeAgo`);
  - the URLs in a reason turned into links (`replaceURLsWithLink`);
  - the support label and its colour;
  - the voter's shown name;
  - the reason paragraph and its placeholder;
  - "vote" or "votes".
- **The home page** (`pages/index.tsx`):
  - a class whose fields are the page's state: the selected proposal, the for and against vote lists, and the mobile tab;
  - `loadProposalVotes`, which records a selection and splits the fetched votes into the two lists;
  - the heading and the view chosen from the selection;
  - the props `getStaticProps` builds.
- **The votable-proposals hook** (`hooks/useVotableProposals.ts`): the active proposals the connected address has not voted on.

Modules, one file each:

| file | module | what it holds |
|---|---|---|
| `util.dfy` | `Util` | `Option` (the source's `null`/`undefined`), `Filter` (`Array.prototype.filter`), `Any` (`Array.prototype.some`), subsequences, ASCII case folding |
| `decimal.dfy` | `Decimal` | the decimal text of a whole number, as a template literal prints it |
| `subgraph.dfy` | `Subgraph` | the `Vote` and `Proposal` records the pages receive |
| `relative_age.dfy` | `RelativeAge` | `timeAgo`, as a method with the source's loop, proved against a recursive reading of the unit table |
| `linkify.dfy` | `Linkify` | `replaceURLsWithLink`, as the regular-expression engine runs it |
| `vote_reasons.dfy` | `VoteReasons` | the remaining display rules of the vote card |
| `home.dfy` | `Home` | the home page: the vote split, the `HomeState` class, heading, view, static props |
| `votable.dfy` | `VotableProposals` | the hook's filter |

How each part is modelled:

- **`timeAgo`** is a `method` with a `while` loop over the same unit table, from years down to minutes, and the same early return. Its result is tied to `AgeOf`, the first table row whose whole count is at least one. The lemmas then prove:
  - the text is "just now" exactly when under 60 whole seconds have passed;
  - otherwise the chosen unit is the largest that fits, with `count * unit <= elapsed < (count + 1) * unit`;
  - the plural "s" appears exactly for counts above one.
- **`replaceURLsWithLink`** applies the expression `\b(https?|ftp|file)://[B]*[E]` with the flags `g` and `i`:
  - the greedy body run is followed by backing off to the last character of the end class;
  - `\b` looks at the original text;
  - without the `u` flag only ASCII letters fold case.

  The model cuts the text into positioned pieces, each a copied character or a link, and renders them. Proved:
  - the pieces cover the text exactly, each starting where the previous one ends;
  - every link is the longest match the expression allows at its position;
  - every copied character is at a position where no match starts;
  - links contain no space, quote or angle bracket;
  - each piece lands in the output at its own position plus the markup of the anchors before it, a link as its anchor and a copied character as itself, and the output is exactly that long;
  - text without a scheme comes back unchanged.
- **`loadProposalVotes`** is split at its `await`:
  - `LoadProposalVotes` records the selection and returns the request the fetch would send, or none for `null`;
  - `ReceiveProposalVotes` replaces both lists with the split of the answer.

  The class invariant `Valid` says the two lists are the for/against split of one fetched list.

Two behaviours of the code are worth knowing:

- **Support label.** The card takes a number, `isFor`, and tests `isFor == 1` and `isFor == 0`; every other value gives "ABSTAIN". `VoteReasons.SupportLabel` takes that number. The page's votes carry a boolean-or-null `support` instead, which the card never sees.
- **Late answers.** `loadProposalVotes` has no guard. A slower answer to an earlier selection overwrites the lists, even after a newer selection. `Home.HomeState.ReceiveProposalVotes` does the same: it replaces the lists whatever the current selection is.

## Model

| member | source | states |
|---|---|---|
| `Util.Filter` | hooks/useVotableProposals.ts:9-12 | a filter's result is no longer than its input, and every element of it is an input element that passes the test |
| `Util.FilterMembership` | pages/index.tsx:47-50 | an element is in the filtered list exactly when it is in the input and passes the test |
| `Util.FilterIsSubsequence` | pages/index.tsx:47-50 | filtering only deletes elements and keeps the order of the rest |
| `Util.FilterMultiplicity` | pages/index.tsx:47-50 | every copy of a passing element is kept, and every copy of a failing one is dropped |
| `Util.FilterKeepsAll` | hooks/useVotableProposals.ts:9-12 | when every element passes, the filter returns its input unchanged |
| `Util.FilterIdempotent` | hooks/useVotableProposals.ts:9-12 | filtering twice by the same test is filtering once |
| `Util.Any` | hooks/useVotableProposals.ts:11 | `some` is false on an empty list |
| `Util.AnyIff` | hooks/useVotableProposals.ts:11 | `some` holds exactly when some element passes the test |
| `Decimal.NatToString` | components/VoteReasons.tsx:37 | the printed count is a non-empty string of digits, with a leading zero only for 0, and a single digit exactly below 10 |
| `Decimal.NatToStringRoundTrip` | components/VoteReasons.tsx:37 | reading the printed digits back gives the number |
| `Decimal.NatToStringInjective` | components/VoteReasons.tsx:37 | different counts print differently |
| `RelativeAge.BlockTimeMillis` | components/VoteReasons.tsx:69 | the block's timestamp in milliseconds is a whole number of seconds, namely the block's seconds |
| `RelativeAge.BlockElapsedSeconds` | components/VoteReasons.tsx:23 | for a block time, the elapsed whole seconds are the clock's whole seconds minus the block's seconds |
| `RelativeAge.ElapsedSeconds` | components/VoteReasons.tsx:23 | the elapsed time in whole seconds, rounded down: `seconds * 1000 <= now - timestamp < (seconds + 1) * 1000` |
| `RelativeAge.AgeFrom` | components/VoteReasons.tsx:34-41 | a count given by the table rows from any row on is at least one and is the whole number of its unit in the elapsed time; which row is chosen is stated by `AgeFromChoice` |
| `RelativeAge.AgeOf` | components/VoteReasons.tsx:34-41 | a count given by the whole table is the whole number of its unit in the elapsed time; `JustNowIff` and `AgoChoosesFirstFittingUnit` state which unit, and when "just now" is shown |
| `RelativeAge.Render` | components/VoteReasons.tsx:37-41 | a counted age ends in " ago" and is exactly as long as the count's digits, a space, the unit's name, an "s" when the count exceeds one, and " ago"; with `RenderShowsCountAndUnit` and `PluralIff` this fixes every character of the template, and `RenderJustNowIff` covers "just now" |
| `RelativeAge.TimeAgo` | components/VoteReasons.tsx:21-42 | the text the loop returns is the rendering of the age chosen by the unit table for the elapsed whole seconds |
| `RelativeAge.AgeFromChoice` | components/VoteReasons.tsx:34-41 | from any row on, the table gives "just now" exactly when no later row fits; otherwise it gives the first row that fits, counted as `elapsed / seconds` |
| `RelativeAge.UnitsAtLeastAMinute` | components/VoteReasons.tsx:25-32 | every unit is at least 60 seconds long, and the last one is exactly 60 |
| `RelativeAge.JustNowIff` | components/VoteReasons.tsx:34-41 | the age is "just now" exactly when fewer than 60 whole seconds have passed, future timestamps included |
| `RelativeAge.AgoChoosesFirstFittingUnit` | components/VoteReasons.tsx:34-38 | from a minute on, the unit is the largest that fits, and the count is the whole number of units: `1 <= c` and `c * s <= elapsed < (c + 1) * s` |
| `RelativeAge.RenderJustNowIff` | components/VoteReasons.tsx:37-41 | the rendered text is "just now" exactly for the "just now" age |
| `RelativeAge.RenderShowsCountAndUnit` | components/VoteReasons.tsx:37 | a counted age starts with the count in decimal, which reads back as the count, then a space, then the unit's name |
| `RelativeAge.PluralIff` | components/VoteReasons.tsx:37 | the unit gets a plural "s" exactly when the count exceeds one |
| `RelativeAge.TimeAgoJustNowIff` | components/VoteReasons.tsx:21-42 | the shown text is "just now" exactly when the elapsed whole seconds are under 60 |
| `RelativeAge.NinetySecondsExample` | components/VoteReasons.tsx:21-42 | a vote 90 seconds old shows "1 minute ago" |
| `RelativeAge.TwoHoursExample` | components/VoteReasons.tsx:21-42 | a vote two hours old shows "2 hours ago" |
| `Linkify.PrefixFrom` | components/VoteReasons.tsx:78 | the first scheme alternative, in the engine's order, followed by `://` at the position, or none when no alternative is there |
| `Linkify.RunEnd` | components/VoteReasons.tsx:78 | the greedy body run stays within the text |
| `Linkify.RunEndIsMaximal` | components/VoteReasons.tsx:78 | the run holds only body characters and stops at the text's end or at a non-body character |
| `Linkify.LastEnd` | components/VoteReasons.tsx:78 | backing off yields an end strictly past the scheme and not past the run |
| `Linkify.LastEndIsLast` | components/VoteReasons.tsx:78 | backing off stops at the last end-class character of the run, and finds none only when the run has none |
| `Linkify.MatchAt` | components/VoteReasons.tsx:78 | a match found at a position is non-empty and lies within the text |
| `Linkify.AlternativeDetermined` | components/VoteReasons.tsx:78 | which scheme alternative is present is fixed by the letters where the alternatives differ |
| `Linkify.PrefixesExclusive` | components/VoteReasons.tsx:78 | at most one scheme alternative can be present at a position |
| `Linkify.BackedOffRunIsMatch` | components/VoteReasons.tsx:78 | the scheme, the greedy run and the back-off together form a match of the expression |
| `Linkify.MatchAtIsMatch` | components/VoteReasons.tsx:78 | what the engine returns at a position is a match of the expression |
| `Linkify.MatchWithinMatchAt` | components/VoteReasons.tsx:78 | every match of the expression at a position ends at or before the engine's match there |
| `Linkify.MatchAtIsLongestMatch` | components/VoteReasons.tsx:78 | the engine finds the longest match at a position, and finds none exactly when the expression allows none |
| `Linkify.MatchEnds` | components/VoteReasons.tsx:78-83 | the engine's answer at each position, each end past its start and within the text |
| `Linkify.NextAt` | components/VoteReasons.tsx:80-83 | the engine always resumes strictly after the position it tried, and within the text |
| `Linkify.PieceAt` | components/VoteReasons.tsx:80-83 | the step at a position is a piece starting at that position |
| `Linkify.PieceAtSource` | components/VoteReasons.tsx:80-83 | a step stands for the text from its position to where the engine resumes |
| `Linkify.ScanFrom` | components/VoteReasons.tsx:80-83 | the pass from a position yields at most one piece per remaining character, the first starting at that position; `ScanFromCovers`, `ScanFromSteps` and `ScanFromConsecutive` state the rest |
| `Linkify.ScanFromCovers` | components/VoteReasons.tsx:80-83 | the pieces of the pass from a position cover the rest of the text exactly |
| `Linkify.ScanFromSteps` | components/VoteReasons.tsx:80-83 | every piece of the pass is the engine's step at its own position, the first at the starting position |
| `Linkify.ScanFromConsecutive` | components/VoteReasons.tsx:80-83 | the pieces of the pass follow each other without gap or overlap |
| `Linkify.Scan` | components/VoteReasons.tsx:80-83 | the pieces of the global replace cover the reason exactly, starting at 0, each where the previous one ends |
| `Linkify.ScanPieceIsStep` | components/VoteReasons.tsx:80-83 | each piece of the scan is the engine's step at its position |
| `Linkify.PieceAtMatch` | components/VoteReasons.tsx:80-83 | the step at a position is the match found there, or else the single character there |
| `Linkify.LinksAreLongestMatches` | components/VoteReasons.tsx:77-83 | every link is the reason's own text at its position and is the longest URL the expression matches there |
| `Linkify.CopiedCharsStartNoMatch` | components/VoteReasons.tsx:77-83 | every copied character is the reason's character at its position, and no URL starts there |
| `Linkify.PrefixCharsAreBody` | components/VoteReasons.tsx:78 | the characters of a scheme and its `://` are body-class characters |
| `Linkify.MatchIsBodyChars` | components/VoteReasons.tsx:78 | a whole match, scheme included, consists of body-class characters |
| `Linkify.MatchedSpanIsBodyChars` | components/VoteReasons.tsx:78 | the text of a match has no space, double quote or angle bracket |
| `Linkify.LinksAreBodyChars` | components/VoteReasons.tsx:78-82 | a URL placed in the anchor's `href` has no space, double quote or angle bracket |
| `Linkify.Anchor` | components/VoteReasons.tsx:82 | the anchor holds the whole match in its `href` between the fixed opening and closing markup |
| `Linkify.AnchorInjective` | components/VoteReasons.tsx:82 | different URLs give different anchors |
| `Linkify.Replacement` | components/VoteReasons.tsx:80-83 | a copied character is replaced by itself, and a link by text longer than it by exactly the anchor's markup |
| `Linkify.RenderPieces` | components/VoteReasons.tsx:80-83 | the rendering is exactly as long as the text the pieces cover plus the markup of one anchor per link |
| `Linkify.MarkupPerLink` | components/VoteReasons.tsx:82 | the markup the anchors add is the fixed anchor markup once per link |
| `Linkify.ReplaceUrlsWithLink` | components/VoteReasons.tsx:76-84 | the output is exactly as long as the reason plus the anchor markup once per link found; `PieceInPlace` says where each piece lands, and `LinksAreLongestMatches` and `CopiedCharsStartNoMatch` say what the pieces are |
| `Linkify.RenderedInPlace` | components/VoteReasons.tsx:80-83 | in the rendering of consecutive pieces, each piece's replacement starts as far in as the piece does in the covered text, plus the markup of the anchors before it |
| `Linkify.PieceRenderedInPlace` | components/VoteReasons.tsx:80-83 | for pieces starting at 0, a link's anchor starts at the link's position plus the markup before it, and a copied character sits at that offset itself |
| `Linkify.PieceInPlace` | components/VoteReasons.tsx:76-84 | every piece of the scan starts inside the reason and lands in the output at its own position plus the markup of the anchors before it: a link as its anchor, a copied character as the reason's character there; with the exact length this fixes the whole output |
| `Linkify.LinksShownAsAnchors` | components/VoteReasons.tsx:80-83 | every link of the scan appears in the output as its anchor |
| `Linkify.RenderPlainIsCovered` | components/VoteReasons.tsx:80-83 | copied characters render as themselves |
| `Linkify.NoSchemeUnchanged` | components/VoteReasons.tsx:76-84 | a reason without `http://`, `https://`, `ftp://` or `file://`, in any case, comes back unchanged |
| `Linkify.UpperCaseWithFullStopMatchesAtStart` | components/VoteReasons.tsx:78 | in `FTP://a.` the upper-case scheme matches, and the match stops before the full stop |
| `Linkify.UpperCaseWithFullStopNoMatchAt` | components/VoteReasons.tsx:78 | in `FTP://a.` no match starts after position 0 |
| `Linkify.UpperCaseWithFullStopLinked` | components/VoteReasons.tsx:76-84 | `FTP://a.` becomes an anchor for `FTP://a` followed by the full stop |
| `VoteReasons.SupportLabel` | components/VoteReasons.tsx:118 | "FOR" exactly for 1, "AGAINST" exactly for 0, "ABSTAIN" exactly for every other number |
| `VoteReasons.SupportColour` | components/VoteReasons.tsx:110-116 | green exactly for 1, red exactly for 0, grey exactly for every other number |
| `VoteReasons.LabelAndColourAgree` | components/VoteReasons.tsx:110-118 | each label comes with its own colour, so two votes share a label exactly when they share a colour |
| `VoteReasons.DisplayName` | components/VoteReasons.tsx:106 | a non-empty ENS name when there is one, otherwise the address's first eight characters, or the whole address if shorter |
| `VoteReasons.ReasonHtml` | components/VoteReasons.tsx:141 | the placeholder for an empty reason, otherwise the reason with its URLs linked |
| `VoteReasons.ReasonColour` | components/VoteReasons.tsx:137-139 | the lighter grey exactly for a non-empty reason, the dimmer one exactly for the placeholder |
| `VoteReasons.PlainReasonShownAsWritten` | components/VoteReasons.tsx:141 | a non-empty reason without a URL scheme is shown exactly as written |
| `VoteReasons.VoteWord` | components/VoteReasons.tsx:133 | "vote" exactly for a count of one, "votes" otherwise |
| `Home.ForVotes` | pages/index.tsx:47 | every vote in the for list has support exactly `true` |
| `Home.AgainstVotes` | pages/index.tsx:48-50 | every vote in the against list has support exactly `false` |
| `Home.Abstentions` | pages/index.tsx:47-50 | every vote this list keeps has no support flag |
| `Home.ForVotesExact` | pages/index.tsx:47 | the for list keeps the fetched order, and holds every copy of each supporting vote and nothing else |
| `Home.AgainstVotesExact` | pages/index.tsx:48-50 | the against list keeps the fetched order, and holds every copy of each opposing vote and nothing else |
| `Home.SplitIsDisjoint` | pages/index.tsx:47-50 | no vote is in both lists, and a vote without support is in neither |
| `Home.SplitSizes` | pages/index.tsx:47-50 | for, against and unflagged votes together number exactly the fetched votes |
| `Home.ProposalVotesRequest` | pages/index.tsx:35 | the request is the votes endpoint followed by exactly the proposal id |
| `Home.ProposalVotesRequestInjective` | pages/index.tsx:35 | different proposal ids give different requests |
| `Home.HomeState.constructor` | pages/index.tsx:25-32 | initially nothing is selected, both lists are empty, the "for" tab is shown, and the invariant holds |
| `Home.HomeState.LoadProposalVotes` | pages/index.tsx:41-46 | the selection is recorded; `null` issues no request; a proposal issues the request for its own id; the invariant is kept |
| `Home.HomeState.ReceiveProposalVotes` | pages/index.tsx:46-53 | both lists become the for/against split of the votes received, re-establishing the invariant |
| `Home.HomeState.SetMobileVoteType` | pages/index.tsx:30-32 | the tab becomes the chosen side, nothing else changes, and the invariant is kept |
| `Home.HomeState.Heading` | pages/index.tsx:80-82 | the heading ends in " Votes" after the selected title, or after "All" when nothing is selected |
| `Home.HomeState.CurrentView` | pages/index.tsx:84-96 | the split view, fed from the state, exactly when a proposal is selected; otherwise the paginated list of the initial votes |
| `Home.ShownListsDisjoint` | pages/index.tsx:46-53 | whenever the invariant holds, the two shown lists share no vote and are together no longer than the fetched list |
| `Home.GetStaticProps` | pages/index.tsx:114-123 | the cache fallback has the single key of the first vote page, holding the same votes as the page; the page regenerates every 30 seconds |
| `VotableProposals.ToLower` | hooks/useVotableProposals.ts:11 | lower-casing keeps the length, turns each ASCII capital into its own small letter, and changes nothing else |
| `VotableProposals.ToLowerFixesLower` | hooks/useVotableProposals.ts:11 | text without capitals is its own lower case, and lower-casing twice is lower-casing once |
| `VotableProposals.AddressKey` | hooks/useVotableProposals.ts:11 | with no connected address there is no key; otherwise the key is the lower-cased address |
| `VotableProposals.Votable` | hooks/useVotableProposals.ts:9-12 | the votable list is no longer than the active list |
| `VotableProposals.HasVotedIff` | hooks/useVotableProposals.ts:11 | a connected address has voted on a proposal exactly when some vote's voter id equals the lower-cased address |
| `VotableProposals.VotableIsSubsequence` | hooks/useVotableProposals.ts:9-12 | the hook only drops proposals, keeping the order of the rest |
| `VotableProposals.VotableKeptIff` | hooks/useVotableProposals.ts:9-12 | a proposal is kept exactly when it is active and none of its votes is the address's, and then every copy of it is kept |
| `VotableProposals.NoAddressKeepsAll` | hooks/useVotableProposals.ts:11 | without a connected wallet every active proposal is votable |
| `VotableProposals.CapitalisedVoterNeverMatches` | hooks/useVotableProposals.ts:11 | only the address is lower-cased, so a stored voter id with a capital letter never matches |
| `VotableProposals.AddressCaseIrrelevant` | hooks/useVotableProposals.ts:11 | the letter case of the connected address does not change the result |
| `VotableProposals.VotableIdempotent` | hooks/useVotableProposals.ts:9-12 | filtering the result again changes nothing |

## Left out

- **ENS lookups** (`components/VoteReasons.tsx:53-58`):
  - the ENS name is an input to `DisplayName`;
  - the avatar and the etherscan and nouns.wtf links are markup and are not modelled.
- **Clock and block lookup** (`components/VoteReasons.tsx:65-74`):
  - the clock reading `new Date()` is the `now` parameter of `TimeAgo`;
  - the block lookup over RPC is not modelled: the block's timestamp in seconds is an input to `BlockTimeMillis`;
  - the React state and effect that hold the result are not modelled.
- `Decimal.NatToString`: prints every count in plain decimal. JavaScript switches to exponent notation from 10^21 on, which no vote age reaches.
- **UTF-16 positions:** strings are sequences of Unicode characters, where JavaScript counts UTF-16 code units. This could change `address.slice(0, 8)` (`DisplayName`) and the positions in `replaceURLsWithLink`, but only for characters outside the Basic Multilingual Plane. None of those is a word, body or end character, so matches are the same. Addresses are ASCII.
- `VotableProposals.ToLower`: folds only ASCII letters, while `String.prototype.toLowerCase` folds all of Unicode. The two agree on the hexadecimal addresses the hook lower-cases.
- **Fetching votes** (`pages/index.tsx:34-39`):
  - the network request and the JSON decoding are not modelled: `LoadProposalVotes` returns the request, and `ReceiveProposalVotes` takes the decoded votes;
  - a fetch that fails leaves the lists as they were, which here means `ReceiveProposalVotes` is not called.
- **Interleaved selections:** the source has no ordering between overlapping `loadProposalVotes` calls. The model has none either: the caller chooses the order in which answers arrive.
- **Static-props queries and the cache** (`pages/index.tsx:103-112`):
  - the queries behind `getStaticProps` are not modelled: `getVotes('desc', 5, 0)`, the block number, and `getOpenProposals(block, 'asc', 10, 0)`;
  - `GetStaticProps` takes their answers;
  - the SWR cache that consumes `fallback` is not part of this model.
- **Markup and other components:**
  - JSX markup and CSS classes other than the colour and label choices are not modelled;
  - so are `useCallback` memoisation and the components the page renders: `ProposalContainer`, `SelectedProposalVoteView` and `PaginatedVoteList`;
  - `useActiveProposals` and `useAccount` are not part of this model: they supply the hook's two inputs.
- **Numbers:** JavaScript numbers (`now`, the timestamps, `isFor`, `votes`, the counts) are unbounded integers here. Nothing is lost. Elapsed milliseconds are near 10^11, far below 2^53. So `Math.floor` of the rounded floating-point quotient equals the floor division used here.
- **Vote fields:** the id, weight, reason and block number of a `Vote` are carried but not interpreted beyond what the modelled code reads.
