/** `replaceURLsWithLink` of components/VoteReasons.tsx: a global, case-insensitive
    regular-expression replacement that wraps every http, https, ftp or file URL
    of a vote's reason in an anchor labelled `*link*`.

    The expression is `\b(https?|ftp|file)://[B]*[E]` with flags `g` and `i`,
    where B is the body class `-A-Z0-9+&@#/%?=~_|!:,.;` and E the end class
    `-A-Z0-9+&@#/%=~_|` (B without `?!:,.;`). Without the `u` flag, case folding
    only pairs ASCII letters, so both classes and the schemes match ASCII letters
    of either case and nothing else. The replacement runs as the engine does:
    left to right, trying a match at each position, resuming after each match. */
module Linkify {
  import opened Util
  import Decimal

  predicate IsAsciiLetter(c: char) {
    'a' <= c <= 'z' || 'A' <= c <= 'Z'
  }

  /** `\w`: the characters on one side of a word boundary `\b`. */
  predicate IsWordChar(c: char) {
    IsAsciiLetter(c) || Decimal.IsDigit(c) || c == '_'
  }

  /** The class a URL must end with: `-A-Z0-9+&@#/%=~_|`. */
  predicate IsEndChar(c: char) {
    IsAsciiLetter(c) || Decimal.IsDigit(c) ||
    c == '-' || c == '+' || c == '&' || c == '@' || c == '#' || c == '/' ||
    c == '%' || c == '=' || c == '~' || c == '_' || c == '|'
  }

  /** The class a URL's body is made of: the end class and `?!:,.;`. */
  predicate IsBodyChar(c: char) {
    IsEndChar(c) || c == '?' || c == '!' || c == ':' || c == ',' || c == '.' || c == ';'
  }

  /** The scheme alternatives with their `://`, in the order the engine tries them. */
  const Prefixes: seq<string> := ["https://", "http://", "ftp://", "file://"]

  /** `text` holds the lower-case word `w` at position `p`, ignoring ASCII case. */
  predicate StartsWithAt(text: string, p: nat, w: string) {
    p + |w| <= |text| && forall i :: 0 <= i < |w| ==> LowerAscii(text[p + i]) == w[i]
  }

  /** `\b` before position `p`, given that the character at `p` is a letter. */
  predicate WordBoundaryAt(text: string, p: nat) {
    p == 0 || (p <= |text| && !IsWordChar(text[p - 1]))
  }

  /** The first scheme alternative from `k` on that is followed by `://` at `p`,
      as an index into `Prefixes`. */
  function PrefixFrom(text: string, p: nat, k: nat): (r: Option<nat>)
    requires k <= |Prefixes|
    ensures r.Some? ==> k <= r.value < |Prefixes| && StartsWithAt(text, p, Prefixes[r.value])
    ensures r.None? ==> forall j :: k <= j < |Prefixes| ==> !StartsWithAt(text, p, Prefixes[j])
    decreases |Prefixes| - k
  {
    if k == |Prefixes| then None
    else if StartsWithAt(text, p, Prefixes[k]) then Some(k)
    else PrefixFrom(text, p, k + 1)
  }

  function PrefixAt(text: string, p: nat): Option<nat> {
    PrefixFrom(text, p, 0)
  }

  /** Where the greedy `[B]*` starting at `q` stops. */
  function RunEnd(text: string, q: nat): (e: nat)
    requires q <= |text|
    ensures q <= e <= |text|
    decreases |text| - q
  {
    if q < |text| && IsBodyChar(text[q]) then RunEnd(text, q + 1) else q
  }

  /** The run is the longest stretch of body characters from `q`. */
  lemma {:induction false} RunEndIsMaximal(text: string, q: nat)
    requires q <= |text|
    ensures forall i :: q <= i < RunEnd(text, q) ==> IsBodyChar(text[i])
    ensures RunEnd(text, q) == |text| || !IsBodyChar(text[RunEnd(text, q)])
    decreases |text| - q
  {
    if q < |text| && IsBodyChar(text[q]) {
      RunEndIsMaximal(text, q + 1);
    }
  }

  /** Backing off from `e` towards `lo`: the largest end `f` in `(lo, e]` whose last
      character is in the end class. */
  function LastEnd(text: string, lo: nat, e: nat): (f: Option<nat>)
    requires e <= |text|
    ensures f.Some? ==> lo < f.value <= e
    decreases e
  {
    if e <= lo then None
    else if IsEndChar(text[e - 1]) then Some(e)
    else LastEnd(text, lo, e - 1)
  }

  /** Backing off stops at the last end character, and finds none only when
      there is none. */
  lemma {:induction false} LastEndIsLast(text: string, lo: nat, e: nat)
    requires e <= |text|
    ensures LastEnd(text, lo, e).Some? ==> IsEndChar(text[LastEnd(text, lo, e).value - 1])
    ensures LastEnd(text, lo, e).Some? ==> forall i :: LastEnd(text, lo, e).value <= i < e ==> !IsEndChar(text[i])
    ensures LastEnd(text, lo, e).None? ==> forall i :: lo <= i < e ==> !IsEndChar(text[i])
    decreases e
  {
    if lo < e && !IsEndChar(text[e - 1]) {
      LastEndIsLast(text, lo, e - 1);
    }
  }

  /** The end of the match the expression finds at `p`, if any. */
  function MatchAt(text: string, p: nat): (e: Option<nat>)
    requires p <= |text|
    ensures e.Some? ==> p < e.value <= |text|
  {
    if !WordBoundaryAt(text, p) then None
    else match PrefixAt(text, p)
      case None => None
      case Some(k) => LastEnd(text, p + |Prefixes[k]|, RunEnd(text, p + |Prefixes[k]|))
  }

  /** The independent reading of the expression: `text[p..e]` is a scheme and `://`
      at a word boundary, then body characters, the last of them an end character. */
  ghost predicate IsMatch(text: string, p: nat, e: nat) {
    exists k :: 0 <= k < |Prefixes| && IsMatchWith(text, p, e, Prefixes[k])
  }

  ghost predicate IsMatchWith(text: string, p: nat, e: nat, w: string) {
    WordBoundaryAt(text, p) && StartsWithAt(text, p, w) && p + |w| < e <= |text| &&
    (forall i :: p + |w| <= i < e ==> IsBodyChar(text[i])) &&
    IsEndChar(text[e - 1])
  }

  /** Which alternative the characters at `p` can belong to, read from the
      characters where the alternatives differ. */
  function AlternativeAt(text: string, p: nat): nat
    requires p + 5 <= |text|
  {
    if LowerAscii(text[p]) == 'h' then (if LowerAscii(text[p + 4]) == 's' then 0 else 1)
    else if LowerAscii(text[p + 1]) == 't' then 2
    else 3
  }

  lemma AlternativeDetermined(text: string, p: nat, k: nat)
    requires k < |Prefixes| && StartsWithAt(text, p, Prefixes[k])
    ensures p + 5 <= |text| && k == AlternativeAt(text, p)
  {
    assert LowerAscii(text[p]) == Prefixes[k][0];
    assert LowerAscii(text[p + 1]) == Prefixes[k][1];
    assert LowerAscii(text[p + 4]) == Prefixes[k][4];
  }

  /** At most one scheme alternative can be followed by `://` at one position. */
  lemma PrefixesExclusive(text: string, p: nat, k: nat, m: nat)
    requires k < |Prefixes| && m < |Prefixes|
    requires StartsWithAt(text, p, Prefixes[k]) && StartsWithAt(text, p, Prefixes[m])
    ensures k == m
  {
    AlternativeDetermined(text, p, k);
    AlternativeDetermined(text, p, m);
  }

  /** What `MatchAt` computes once the boundary and the alternative are known. */
  lemma MatchAtWith(text: string, p: nat, m: nat)
    requires p <= |text| && WordBoundaryAt(text, p) && PrefixAt(text, p) == Some(m)
    ensures m < |Prefixes| && p + |Prefixes[m]| <= |text|
    ensures MatchAt(text, p) == LastEnd(text, p + |Prefixes[m]|, RunEnd(text, p + |Prefixes[m]|))
  {
  }

  /** Scheme, greedy run and back-off together give a match. */
  lemma BackedOffRunIsMatch(text: string, p: nat, m: nat)
    requires m < |Prefixes| && WordBoundaryAt(text, p) && StartsWithAt(text, p, Prefixes[m])
    requires LastEnd(text, p + |Prefixes[m]|, RunEnd(text, p + |Prefixes[m]|)).Some?
    ensures IsMatchWith(text, p, LastEnd(text, p + |Prefixes[m]|, RunEnd(text, p + |Prefixes[m]|)).value, Prefixes[m])
  {
    var q := p + |Prefixes[m]|;
    RunEndIsMaximal(text, q);
    LastEndIsLast(text, q, RunEnd(text, q));
  }

  /** Whatever `MatchAt` returns is a match. */
  lemma MatchAtIsMatch(text: string, p: nat)
    requires p <= |text| && MatchAt(text, p).Some?
    ensures IsMatch(text, p, MatchAt(text, p).value)
  {
    var m := PrefixAt(text, p).value;
    MatchAtWith(text, p, m);
    BackedOffRunIsMatch(text, p, m);
  }

  /** A stretch of body characters from `q` lies within the greedy run. */
  lemma RunEndCovers(text: string, q: nat, e: nat)
    requires q <= e <= |text| && forall i :: q <= i < e ==> IsBodyChar(text[i])
    ensures e <= RunEnd(text, q)
  {
    RunEndIsMaximal(text, q);
  }

  /** Backing off never passes an end character. */
  lemma LastEndReaches(text: string, lo: nat, run: nat, e: nat)
    requires lo < e <= run <= |text| && IsEndChar(text[e - 1])
    ensures LastEnd(text, lo, run).Some? && e <= LastEnd(text, lo, run).value
  {
    LastEndIsLast(text, lo, run);
  }

  /** Every match at `p` ends at or before the end `MatchAt` reports. */
  lemma MatchWithinMatchAt(text: string, p: nat, e: nat)
    requires p <= |text| && IsMatch(text, p, e)
    ensures MatchAt(text, p).Some? && e <= MatchAt(text, p).value
  {
    var k :| 0 <= k < |Prefixes| && IsMatchWith(text, p, e, Prefixes[k]);
    var m := PrefixAt(text, p).value;
    PrefixesExclusive(text, p, k, m);
    MatchAtWith(text, p, m);
    var q := p + |Prefixes[m]|;
    RunEndCovers(text, q, e);
    LastEndReaches(text, q, RunEnd(text, q), e);
  }

  /** A match at `p` ending at `e`, and no match at `p` ends later. */
  ghost predicate IsLongestMatch(text: string, p: nat, e: nat) {
    IsMatch(text, p, e) && forall f :: e < f ==> !IsMatch(text, p, f)
  }

  /** No match starts at `p`. */
  ghost predicate NoMatchAt(text: string, p: nat) {
    forall f :: !IsMatch(text, p, f)
  }

  /** The engine's result at `p` is the longest match the expression allows there,
      and it reports none exactly when the expression allows none. */
  lemma MatchAtIsLongestMatch(text: string, p: nat)
    requires p <= |text|
    ensures MatchAt(text, p).Some? ==> IsLongestMatch(text, p, MatchAt(text, p).value)
    ensures MatchAt(text, p).None? ==> NoMatchAt(text, p)
  {
    if MatchAt(text, p).Some? {
      MatchAtIsMatch(text, p);
    }
    forall e: nat | IsMatch(text, p, e)
      ensures MatchAt(text, p).Some? && e <= MatchAt(text, p).value
    {
      MatchWithinMatchAt(text, p, e);
    }
  }

  /** A piece of the scanned text, with the position where it starts: a character
      copied as it is, or a matched URL. */
  datatype Piece = Plain(at: nat, c: char) | Link(at: nat, url: string)

  /** The source text one piece stands for. */
  function Source(x: Piece): string {
    match x
    case Plain(_, c) => [c]
    case Link(_, u) => u
  }

  /** `ends[i]` is where a match found at position `i` ends, if one is found there;
      every such end lies past its start and within the text. */
  predicate ValidEnds(text: string, ends: seq<Option<nat>>) {
    |ends| == |text| &&
    forall i :: 0 <= i < |ends| && ends[i].Some? ==> i < ends[i].value <= |text|
  }

  /** The engine's answer at every position. A `\b` looks at the original text,
      not at what earlier replacements produced, so the answer at a position does
      not depend on what was matched before it. */
  function MatchEnds(text: string): (ends: seq<Option<nat>>)
    ensures ValidEnds(text, ends)
    ensures forall i :: 0 <= i < |text| ==> ends[i] == MatchAt(text, i)
  {
    seq(|text|, i requires 0 <= i < |text| => MatchAt(text, i))
  }

  /** Where the engine resumes after position `p`: after the match found there,
      or after the one character copied. */
  function NextAt(text: string, ends: seq<Option<nat>>, p: nat): (n: nat)
    requires ValidEnds(text, ends) && p < |text|
    ensures p < n <= |text|
  {
    match ends[p]
    case Some(e) => e
    case None => p + 1
  }

  /** One step of the engine at position `p`: the match found there, or else the
      character there, copied. */
  function PieceAt(text: string, ends: seq<Option<nat>>, p: nat): (x: Piece)
    requires ValidEnds(text, ends) && p < |text|
    ensures x.at == p
  {
    match ends[p]
    case Some(e) => Link(p, text[p..e])
    case None => Plain(p, text[p])
  }

  /** The engine's left-to-right pass over `text` from position `p`, resuming
      after each piece. */
  function ScanFrom(text: string, ends: seq<Option<nat>>, p: nat): (pieces: seq<Piece>)
    requires ValidEnds(text, ends) && p <= |text|
    ensures |pieces| <= |text| - p
    ensures pieces != [] ==> pieces[0].at == p
    decreases |text| - p
  {
    if p == |text| then [] else [PieceAt(text, ends, p)] + ScanFrom(text, ends, NextAt(text, ends, p))
  }

  /** The source text a sequence of pieces covers. */
  function Covered(pieces: seq<Piece>): string {
    if pieces == [] then "" else Source(pieces[0]) + Covered(pieces[1..])
  }

  const AnchorOpen := "<a style=\"text-decoration:underline;\" href=\""
  const AnchorClose := "\" target=\"_blank\" rel=\"noopener noreferrer\">*link*</a>"

  /** The replacement: `$1` is the whole match, placed in the `href` attribute;
      the visible text is always `*link*`. */
  function Anchor(url: string): (html: string)
    ensures |html| == |AnchorOpen| + |url| + |AnchorClose|
    ensures html[..|AnchorOpen|] == AnchorOpen && html[|AnchorOpen| + |url|..] == AnchorClose
    ensures html[|AnchorOpen|..|AnchorOpen| + |url|] == url
  {
    AnchorOpen + url + AnchorClose
  }

  /** Different URLs give different anchors. */
  lemma AnchorInjective(u: string, v: string)
    ensures Anchor(u) == Anchor(v) ==> u == v
  {
    if Anchor(u) == Anchor(v) {
      assert |u| == |v|;
    }
  }

  /** How much longer an anchor is than the URL it holds. */
  const AnchorExtra := |AnchorOpen| + |AnchorClose|

  /** The number of links among `pieces`. */
  function NLinks(pieces: seq<Piece>): nat {
    if pieces == [] then 0 else (if pieces[0].Link? then 1 else 0) + NLinks(pieces[1..])
  }

  /** The markup the anchors among `pieces` add: `AnchorExtra` per link. */
  function Markup(pieces: seq<Piece>): nat {
    if pieces == [] then 0 else (if pieces[0].Link? then AnchorExtra else 0) + Markup(pieces[1..])
  }

  /** The markup is `AnchorExtra` for each link. */
  lemma {:induction false} MarkupPerLink(pieces: seq<Piece>)
    ensures Markup(pieces) == NLinks(pieces) * AnchorExtra
  {
    if pieces != [] {
      MarkupPerLink(pieces[1..]);
    }
  }

  /** What one piece becomes in the output: a copied character stays itself, a
      link gains the anchor's markup around it. */
  function Replacement(x: Piece): (r: string)
    ensures |r| == |Source(x)| + (if x.Link? then AnchorExtra else 0)
    ensures x.Plain? ==> r == Source(x)
  {
    match x
    case Plain(_, c) => [c]
    case Link(_, u) => Anchor(u)
  }

  /** The replacements of the pieces, in order: as long as the text the pieces
      cover plus the markup of every anchor. */
  function RenderPieces(pieces: seq<Piece>): (html: string)
    ensures |html| == |Covered(pieces)| + Markup(pieces)
  {
    if pieces == [] then "" else Replacement(pieces[0]) + RenderPieces(pieces[1..])
  }

  /** The pieces `replaceURLsWithLink` cuts `text` into: together they are the
      text, each starting where the one before it ends. */
  function Scan(text: string): (pieces: seq<Piece>)
    ensures Covered(pieces) == text
    ensures pieces != [] ==> pieces[0].at == 0
    ensures Consecutive(pieces)
  {
    ScanFromCovers(text, MatchEnds(text), 0);
    ScanFromConsecutive(text, MatchEnds(text), 0);
    ScanFrom(text, MatchEnds(text), 0)
  }

  /** `replaceURLsWithLink(text)`: the text grows by exactly the markup of one
      anchor per link found; `PieceInPlace` says where each piece lands. */
  function ReplaceUrlsWithLink(text: string): (html: string)
    ensures |html| == |text| + NLinks(Scan(text)) * AnchorExtra
  {
    MarkupPerLink(Scan(text));
    RenderPieces(Scan(text))
  }

  lemma CoveredCons(x: Piece, rest: seq<Piece>)
    ensures Covered([x] + rest) == Source(x) + Covered(rest)
  {
    assert ([x] + rest)[0] == x;
    assert ([x] + rest)[1..] == rest;
  }

  /** A piece stands for the text from its position to where the engine resumes. */
  lemma PieceAtSource(text: string, ends: seq<Option<nat>>, p: nat)
    requires ValidEnds(text, ends) && p < |text|
    ensures Source(PieceAt(text, ends, p)) == text[p..NextAt(text, ends, p)]
  {
  }

  /** A piece covering `text[p..next]` followed by pieces covering `text[next..]`
      covers `text[p..]`. */
  lemma CoverStep(text: string, p: nat, next: nat, x: Piece, rest: seq<Piece>)
    requires p <= next <= |text| && Source(x) == text[p..next] && Covered(rest) == text[next..]
    ensures Covered([x] + rest) == text[p..]
  {
    CoveredCons(x, rest);
    assert text[p..] == text[p..next] + text[next..];
  }

  lemma {:induction false} ScanFromCovers(text: string, ends: seq<Option<nat>>, p: nat)
    requires ValidEnds(text, ends) && p <= |text|
    ensures Covered(ScanFrom(text, ends, p)) == text[p..]
    decreases |text| - p
  {
    if p < |text| {
      var next := NextAt(text, ends, p);
      ScanFromCovers(text, ends, next);
      PieceAtSource(text, ends, p);
      CoverStep(text, p, next, PieceAt(text, ends, p), ScanFrom(text, ends, next));
    }
  }

  /** Every piece starts at or after `p` and is the engine's step at its position. */
  ghost predicate AreSteps(text: string, ends: seq<Option<nat>>, p: nat, pieces: seq<Piece>)
    requires ValidEnds(text, ends)
  {
    forall i :: 0 <= i < |pieces| ==> p <= pieces[i].at < |text| && pieces[i] == PieceAt(text, ends, pieces[i].at)
  }

  /** Each piece starts where the one before it ends. */
  predicate Consecutive(pieces: seq<Piece>)
    decreases |pieces|
  {
    |pieces| <= 1 ||
    (pieces[1].at == pieces[0].at + |Source(pieces[0])| && Consecutive(pieces[1..]))
  }

  lemma StepsCons(text: string, ends: seq<Option<nat>>, p: nat, next: nat, x: Piece, rest: seq<Piece>)
    requires ValidEnds(text, ends) && p < next
    requires p < |text| && x == PieceAt(text, ends, p) && AreSteps(text, ends, next, rest)
    ensures AreSteps(text, ends, p, [x] + rest)
  {
    var pieces := [x] + rest;
    forall i | 0 <= i < |pieces|
      ensures p <= pieces[i].at < |text| && pieces[i] == PieceAt(text, ends, pieces[i].at)
    {
      if i > 0 {
        assert pieces[i] == rest[i - 1];
      }
    }
  }

  lemma ConsecutiveCons(x: Piece, rest: seq<Piece>)
    requires Consecutive(rest) && (rest != [] ==> rest[0].at == x.at + |Source(x)|)
    ensures Consecutive([x] + rest)
  {
    assert ([x] + rest)[1..] == rest;
  }

  /** The pass from `p` is made of the engine's steps, the first one at `p`. */
  lemma {:induction false} ScanFromSteps(text: string, ends: seq<Option<nat>>, p: nat)
    requires ValidEnds(text, ends) && p <= |text|
    ensures ScanFrom(text, ends, p) != [] ==> ScanFrom(text, ends, p)[0].at == p
    ensures AreSteps(text, ends, p, ScanFrom(text, ends, p))
    decreases |text| - p
  {
    if p < |text| {
      var next := NextAt(text, ends, p);
      ScanFromSteps(text, ends, next);
      StepsCons(text, ends, p, next, PieceAt(text, ends, p), ScanFrom(text, ends, next));
    }
  }

  /** The pieces of the pass follow each other without gap or overlap. */
  lemma {:induction false} ScanFromConsecutive(text: string, ends: seq<Option<nat>>, p: nat)
    requires ValidEnds(text, ends) && p <= |text|
    ensures ScanFrom(text, ends, p) != [] ==> ScanFrom(text, ends, p)[0].at == p
    ensures Consecutive(ScanFrom(text, ends, p))
    decreases |text| - p
  {
    if p < |text| {
      var next := NextAt(text, ends, p);
      ScanFromConsecutive(text, ends, next);
      PieceAtSource(text, ends, p);
      ConsecutiveCons(PieceAt(text, ends, p), ScanFrom(text, ends, next));
    }
  }

  /** Every piece of the scan is the engine's step at its own position. */
  lemma ScanPieceIsStep(text: string, x: Piece)
    requires x in Scan(text)
    ensures x.at < |text| && x == PieceAt(text, MatchEnds(text), x.at)
  {
    ScanFromSteps(text, MatchEnds(text), 0);
  }

  /** Each scanned piece starts inside the text, and a copied one is the text's
      character there. */
  lemma ScanPieceInText(text: string, x: Piece)
    requires x in Scan(text)
    ensures x.at < |text| && (x.Plain? ==> x.c == text[x.at])
  {
    ScanPieceIsStep(text, x);
  }

  /** The step at `p` is the match found there, or else the character there. */
  lemma PieceAtMatch(text: string, p: nat)
    requires p < |text|
    ensures MatchAt(text, p).Some? ==>
      MatchAt(text, p).value <= |text| &&
      PieceAt(text, MatchEnds(text), p) == Link(p, text[p..MatchAt(text, p).value])
    ensures MatchAt(text, p).None? ==> PieceAt(text, MatchEnds(text), p) == Plain(p, text[p])
  {
  }

  /** Every link of the scan is a URL as the expression defines it: it starts at a
      word boundary with a scheme and `://`, holds only body characters and ends
      in an end character (so a trailing `.`, `,`, `;`, `:`, `!` or `?` stays
      outside). It is the longest such URL at its start. */
  lemma LinksAreLongestMatches(text: string, x: Piece)
    requires x in Scan(text) && x.Link?
    ensures var e := x.at + |x.url|;
      e <= |text| && x.url == text[x.at..e] && IsLongestMatch(text, x.at, e)
  {
    ScanPieceIsStep(text, x);
    StepLinkIsLongestMatch(text, x);
  }

  lemma StepLinkIsLongestMatch(text: string, x: Piece)
    requires x.at < |text| && x == PieceAt(text, MatchEnds(text), x.at) && x.Link?
    ensures var e := x.at + |x.url|;
      e <= |text| && x.url == text[x.at..e] && IsLongestMatch(text, x.at, e)
  {
    PieceAtMatch(text, x.at);
    MatchAtIsLongestMatch(text, x.at);
  }

  lemma StepCharStartsNoMatch(text: string, x: Piece)
    requires x.at < |text| && x == PieceAt(text, MatchEnds(text), x.at) && x.Plain?
    ensures x.c == text[x.at] && NoMatchAt(text, x.at)
  {
    PieceAtMatch(text, x.at);
    MatchAtIsLongestMatch(text, x.at);
  }

  /** Every character the scan copies is one where no URL starts: matches are
      taken leftmost first. */
  lemma CopiedCharsStartNoMatch(text: string, x: Piece)
    requires x in Scan(text) && x.Plain?
    ensures x.at < |text| && x.c == text[x.at] && NoMatchAt(text, x.at)
  {
    ScanPieceIsStep(text, x);
    StepCharStartsNoMatch(text, x);
  }

  /** The characters of the scheme alternatives and `://` are body characters. */
  lemma PrefixCharsAreBody(text: string, p: nat, k: nat)
    requires k < |Prefixes| && StartsWithAt(text, p, Prefixes[k])
    ensures forall i :: p <= i < p + |Prefixes[k]| ==> IsBodyChar(text[i])
  {
    forall i | p <= i < p + |Prefixes[k]|
      ensures IsBodyChar(text[i])
    {
      assert LowerAscii(text[i]) == Prefixes[k][i - p];
    }
  }

  /** A match, scheme included, is made of body characters. */
  lemma MatchIsBodyChars(text: string, p: nat, e: nat)
    requires IsMatch(text, p, e)
    ensures e <= |text| && forall i :: p <= i < e ==> IsBodyChar(text[i])
  {
    var m :| 0 <= m < |Prefixes| && IsMatchWith(text, p, e, Prefixes[m]);
    PrefixCharsAreBody(text, p, m);
  }

  lemma MatchedSpanIsBodyChars(text: string, p: nat, u: string)
    requires p + |u| <= |text| && u == text[p..p + |u|] && IsMatch(text, p, p + |u|)
    ensures forall i :: 0 <= i < |u| ==> IsBodyChar(u[i]) && u[i] !in " \"<>"
  {
    MatchIsBodyChars(text, p, p + |u|);
    forall i | 0 <= i < |u|
      ensures IsBodyChar(u[i]) && u[i] !in " \"<>"
    {
      assert u[i] == text[p + i];
    }
  }

  /** A link is made of body characters only, so it never contains a space,
      a double quote or an angle bracket. */
  lemma LinksAreBodyChars(text: string, x: Piece)
    requires x in Scan(text) && x.Link?
    ensures forall i :: 0 <= i < |x.url| ==> IsBodyChar(x.url[i]) && x.url[i] !in " \"<>"
  {
    LinksAreLongestMatches(text, x);
    MatchedSpanIsBodyChars(text, x.at, x.url);
  }

  /** `a` occurs in `r` starting at position `i`. */
  predicate OccursAt(a: string, r: string, i: nat) {
    i + |a| <= |r| && r[i..i + |a|] == a
  }

  /** A one-character occurrence is that character at its position. */
  lemma OccursAtSingle(c: char, r: string, i: nat)
    requires OccursAt([c], r, i)
    ensures i < |r| && r[i] == c
  {
    assert r[i..i + 1][0] == r[i];
  }

  /** An occurrence stays one when text is put in front, shifted by its length. */
  lemma OccursAfterPrefix(a: string, p: string, r: string, s: string, i: nat, t: nat)
    requires OccursAt(a, r, i) && s == p + r && t == |p| + i
    ensures OccursAt(a, s, t)
  {
    assert s[t..t + |a|] == r[i..i + |a|];
  }

  /** The markup before piece `k` is the first piece's, if it is a link, and
      that of the rest before it. */
  lemma MarkupPrefix(pieces: seq<Piece>, k: nat)
    requires 0 < k <= |pieces|
    ensures Markup(pieces[..k]) == (if pieces[0].Link? then AnchorExtra else 0) + Markup(pieces[1..][..k - 1])
  {
    assert pieces[..k][1..] == pieces[1..][..k - 1];
  }

  /** Consecutive pieces start in increasing order. */
  lemma {:induction false} ConsecutiveAscending(pieces: seq<Piece>, k: nat)
    requires Consecutive(pieces) && k < |pieces|
    ensures pieces[0].at <= pieces[k].at
  {
    if k > 0 {
      ConsecutiveAscending(pieces[1..], k - 1);
    }
  }

  /** An occurrence at `o` in the rendering of the rest is one at `t`, past the
      first piece's replacement, in the rendering of all the pieces. */
  lemma RenderedAfterHead(pieces: seq<Piece>, a: string, o: nat, t: nat)
    requires pieces != [] && t == |Replacement(pieces[0])| + o
    requires OccursAt(a, RenderPieces(pieces[1..]), o)
    ensures OccursAt(a, RenderPieces(pieces), t)
  {
    var head, rest := Replacement(pieces[0]), RenderPieces(pieces[1..]);
    assert RenderPieces(pieces) == head + rest;
    OccursAfterPrefix(a, head, rest, RenderPieces(pieces), o, t);
  }

  /** In the rendering of consecutive pieces, piece `k` (here `x`) starts at `t`:
      as far from the start as it does in the covered text, plus the markup of
      the anchors before it. */
  lemma {:induction false} RenderedInPlace(pieces: seq<Piece>, k: nat, x: Piece, t: nat)
    requires Consecutive(pieces) && k < |pieces| && x == pieces[k]
    requires pieces[0].at <= x.at && t == x.at - pieces[0].at + Markup(pieces[..k])
    ensures OccursAt(Replacement(x), RenderPieces(pieces), t)
  {
    var head, rest := Replacement(pieces[0]), RenderPieces(pieces[1..]);
    assert RenderPieces(pieces) == head + rest;
    if k == 0 {
      assert pieces[..0] == [];
      assert (head + rest)[0..|head|] == head;
    } else {
      assert pieces[1..][k - 1] == x;
      ConsecutiveAscending(pieces[1..], k - 1);
      MarkupPrefix(pieces, k);
      var o := x.at - pieces[1].at + Markup(pieces[1..][..k - 1]);
      RenderedInPlace(pieces[1..], k - 1, x, o);
      RenderedAfterHead(pieces, Replacement(x), o, t);
    }
  }

  /** Where piece `k` lands in the output: its own position, shifted by the
      markup of the anchors before it. */
  function OutputAt(pieces: seq<Piece>, k: nat): nat
    requires k < |pieces|
  {
    pieces[k].at + NLinks(pieces[..k]) * AnchorExtra
  }

  /** `RenderedInPlace` for pieces starting at 0, told apart by kind of piece. */
  lemma PieceRenderedInPlace(pieces: seq<Piece>, k: nat, html: string, o: nat)
    requires Consecutive(pieces) && k < |pieces| && pieces[0].at == 0 && html == RenderPieces(pieces)
    requires o == OutputAt(pieces, k)
    ensures pieces[k].Link? ==> OccursAt(Anchor(pieces[k].url), html, o)
    ensures pieces[k].Plain? ==> o < |html| && html[o] == pieces[k].c
  {
    var x := pieces[k];
    MarkupPerLink(pieces[..k]);
    RenderedInPlace(pieces, k, x, o);
    if x.Plain? {
      OccursAtSingle(x.c, html, o);
    }
  }

  /** Piece `k` of the scan lands in the output at its own position in the text,
      shifted by the markup of the anchors before it: a link as its anchor, a
      copied character as that same character of the text. */
  lemma PieceInPlace(text: string, k: nat)
    requires k < |Scan(text)|
    ensures var x := Scan(text)[k];
      x.at < |text| && (x.Plain? ==> x.c == text[x.at])
    ensures var x, o := Scan(text)[k], OutputAt(Scan(text), k);
      (x.Link? ==> OccursAt(Anchor(x.url), ReplaceUrlsWithLink(text), o)) &&
      (x.Plain? ==> o < |ReplaceUrlsWithLink(text)| && ReplaceUrlsWithLink(text)[o] == x.c)
  {
    var pieces := Scan(text);
    assert pieces[k] in pieces;
    ScanPieceInText(text, pieces[k]);
    PieceRenderedInPlace(pieces, k, ReplaceUrlsWithLink(text), OutputAt(pieces, k));
  }

  /** Every link of the scan appears in the output as its anchor. */
  lemma LinksShownAsAnchors(text: string, x: Piece)
    requires x in Scan(text) && x.Link?
    ensures exists i :: OccursAt(Anchor(x.url), ReplaceUrlsWithLink(text), i)
  {
    var k :| 0 <= k < |Scan(text)| && Scan(text)[k] == x;
    PieceInPlace(text, k);
  }

  /** Text of plain characters only renders as itself. */
  lemma {:induction false} RenderPlainIsCovered(pieces: seq<Piece>)
    requires forall i :: 0 <= i < |pieces| ==> pieces[i].Plain?
    ensures RenderPieces(pieces) == Covered(pieces)
  {
    if pieces != [] {
      RenderPlainIsCovered(pieces[1..]);
    }
  }

  /** `text` contains a scheme and `://` somewhere, in any ASCII case. */
  ghost predicate ContainsScheme(text: string) {
    exists p: nat, k :: p <= |text| && 0 <= k < |Prefixes| && StartsWithAt(text, p, Prefixes[k])
  }

  /** Text without any http://, https://, ftp:// or file:// (in any case) comes
      back unchanged. */
  lemma NoSchemeUnchanged(text: string)
    requires !ContainsScheme(text)
    ensures ReplaceUrlsWithLink(text) == text
  {
    var ends := MatchEnds(text);
    var pieces := Scan(text);
    ScanFromSteps(text, ends, 0);
    forall i | 0 <= i < |pieces|
      ensures pieces[i].Plain?
    {
      assert PrefixAt(text, pieces[i].at).None?;
    }
    RenderPlainIsCovered(pieces);
  }

  /** A worked case: the scheme is matched in any letter case, and a trailing
      full stop is a body character but not an end character, so it stays
      outside the link. */
  const UpperCaseWithFullStop := "FTP://a."

  lemma UpperCaseWithFullStopMatchesAtStart()
    ensures MatchAt(UpperCaseWithFullStop, 0) == Some(7)
  {
    var t := UpperCaseWithFullStop;
    assert !StartsWithAt(t, 0, Prefixes[0]) by { assert LowerAscii(t[0]) != Prefixes[0][0]; }
    assert !StartsWithAt(t, 0, Prefixes[1]) by { assert LowerAscii(t[0]) != Prefixes[1][0]; }
    assert StartsWithAt(t, 0, Prefixes[2]);
    assert RunEnd(t, 6) == 8;
  }

  lemma UpperCaseWithFullStopNoMatchAt(p: nat)
    requires 1 <= p < |UpperCaseWithFullStop|
    ensures MatchAt(UpperCaseWithFullStop, p) == None
  {
    var t := UpperCaseWithFullStop;
    forall k | 0 <= k < |Prefixes| ensures !StartsWithAt(t, p, Prefixes[k]) {
      if p + |Prefixes[k]| <= |t| {
        assert LowerAscii(t[p]) != Prefixes[k][0];
      }
    }
  }

  lemma UpperCaseWithFullStopLinked()
    ensures ReplaceUrlsWithLink(UpperCaseWithFullStop) == Anchor("FTP://a") + "."
  {
    var t := UpperCaseWithFullStop;
    var ends := MatchEnds(t);
    UpperCaseWithFullStopMatchesAtStart();
    forall p | 1 <= p < |t| ensures MatchAt(t, p) == None {
      UpperCaseWithFullStopNoMatchAt(p);
    }
    assert ends == [Some(7), None, None, None, None, None, None, None];
    assert t[0..7] == "FTP://a";
    assert ScanFrom(t, ends, 7) == [Plain(7, '.')];
    assert Scan(t) == [Link(0, "FTP://a"), Plain(7, '.')];
  }
}
