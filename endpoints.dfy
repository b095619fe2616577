/** The two REST endpoints the exporter queries on a Cosmos full node, and the
    decimal rendering of the page-size numbers that Python's `str.format`
    inserts into them. */
module Endpoints {

  /** Proposal list: newest first, a fixed page size, with the total count. */
  const ProposalsHead: string := "/cosmos/gov/v1/proposals?pagination.reverse=true&pagination.limit="
  const ProposalsTail: string := "&pagination.count_total=true"

  /** Vote list of one proposal, limited to one page of voters. */
  const VotesHead: string := "/cosmos/gov/v1beta1/proposals/"
  const VotesMid: string := "/votes?pagination.limit="

  predicate IsDigit(c: char) {
    '0' <= c <= '9'
  }

  predicate AllDigits(s: string) {
    forall i :: 0 <= i < |s| ==> IsDigit(s[i])
  }

  function DigitChar(d: nat): (c: char)
    requires d < 10
    ensures IsDigit(c) && c as int - '0' as int == d
  {
    ('0' as int + d) as char
  }

  /** The canonical decimal text of a non-negative integer, as Python's
      `format` writes it: at least one digit and no leading zero. */
  function Decimal(n: nat): (s: string)
    ensures |s| > 0 && AllDigits(s)
    ensures s[0] == '0' ==> n == 0 && |s| == 1
    decreases n
  {
    if n < 10 then [DigitChar(n)] else Decimal(n / 10) + [DigitChar(n % 10)]
  }

  /** The value a string of decimal digits denotes; the partner of Decimal. */
  function DecimalValue(s: string): nat
    requires AllDigits(s)
  {
    if s == [] then 0
    else DecimalValue(s[..|s| - 1]) * 10 + (s[|s| - 1] as int - '0' as int)
  }

  lemma {:induction false} DecimalRoundTrip(n: nat)
    ensures DecimalValue(Decimal(n)) == n
    decreases n
  {
    var s := Decimal(n);
    if n < 10 {
      assert s[..|s| - 1] == [];
    } else {
      assert s[..|s| - 1] == Decimal(n / 10);
      DecimalRoundTrip(n / 10);
    }
  }

  lemma DecimalInjective(m: nat, n: nat)
    requires Decimal(m) == Decimal(n)
    ensures m == n
  {
    DecimalRoundTrip(m);
    DecimalRoundTrip(n);
  }

  /** URL of the proposal-list request for a node base URL and page size. */
  function ProposalsUrl(nodeUrl: string, count: nat): (u: string)
    ensures |u| >= |nodeUrl| + |ProposalsHead| + |ProposalsTail| && u[..|nodeUrl|] == nodeUrl
    ensures u[|u| - |ProposalsTail|..] == ProposalsTail
  {
    nodeUrl + ProposalsHead + Decimal(count) + ProposalsTail
  }

  /** URL of the vote-list request for one proposal id. The id is inserted
      verbatim, as the proposal's JSON gives it. */
  function VotesUrl(nodeUrl: string, proposalId: string, count: nat): (u: string)
    ensures |u| >= |nodeUrl| + |VotesHead| + |proposalId| && u[..|nodeUrl|] == nodeUrl
    ensures u[|nodeUrl| + |VotesHead|..|nodeUrl| + |VotesHead| + |proposalId|] == proposalId
  {
    nodeUrl + VotesHead + proposalId + VotesMid + Decimal(count)
  }

  /** Different page sizes give different proposal-list URLs for one node. */
  lemma ProposalsUrlInjective(nodeUrl: string, c1: nat, c2: nat)
    requires ProposalsUrl(nodeUrl, c1) == ProposalsUrl(nodeUrl, c2)
    ensures c1 == c2
  {
    var u := ProposalsUrl(nodeUrl, c1);
    var lo := |nodeUrl| + |ProposalsHead|;
    assert |Decimal(c1)| == |Decimal(c2)|;
    assert Decimal(c1) == u[lo..lo + |Decimal(c1)|];
    assert Decimal(c2) == u[lo..lo + |Decimal(c2)|];
    DecimalInjective(c1, c2);
  }

  /** Different proposal ids give different vote-list URLs for one node and
      page size, so each vote request names exactly one proposal. */
  lemma VotesUrlInjective(nodeUrl: string, id1: string, id2: string, count: nat)
    requires VotesUrl(nodeUrl, id1, count) == VotesUrl(nodeUrl, id2, count)
    ensures id1 == id2
  {
  }

  /** Both request URLs start with the node's base URL. */
  lemma UrlsStartWithNode(nodeUrl: string, proposalId: string, count: nat)
    ensures ProposalsUrl(nodeUrl, count)[..|nodeUrl|] == nodeUrl
    ensures VotesUrl(nodeUrl, proposalId, count)[..|nodeUrl|] == nodeUrl
  {
  }
}
