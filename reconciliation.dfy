/** One chain's vote reconciliation: fetch the proposal list, keep the
    proposals whose voting window holds `now`, fetch each one's voter page
    and list those on which the tracked address does not appear. */
module Reconciliation {
  import opened Endpoints

  /** A governance proposal; the voting window's timestamps are instants on
      one integer clock (UTC). */
  datatype Proposal = Proposal(id: string, title: string, votingStart: int, votingEnd: int)

  /** One record of a proposal's vote list. Only `voter` is ever inspected. */
  datatype Vote = Vote(voter: string, option: string)

  /** The `{id, title}` record kept for a proposal not voted on. */
  datatype Entry = Entry(id: string, title: string)

  /** One configured chain. */
  datatype ChainTarget = ChainTarget(name: string, nodeUrl: string, validatorAddress: string)

  /** Page sizes read from the configuration. */
  datatype Config = Config(proposalsCount: nat, votersCount: nat)

  const DefaultConfig := Config(50, 200)

  /** What an HTTP GET came back with: the decoded list, or a request error
      (transport failure, non-2xx status, undecodable JSON). A body without the list field
      decodes to `Ok([])`. */
  datatype Response<T> = Ok(items: seq<T>) | RequestError

  /** The node's answers, keyed by the requested URL. A URL with no answer
      behaves as a request that raised. */
  datatype Network = Network(proposalPages: map<string, Response<Proposal>>,
                             votePages: map<string, Response<Vote>>)

  /** Everything one call of the reconciliation depends on. */
  datatype Context = Context(net: Network, cfg: Config, chain: ChainTarget, now: int)

  /** A GET whose failure is swallowed: the list, or `[]`. */
  function Fetch<T>(pages: map<string, Response<T>>, url: string): (r: seq<T>)
    ensures (url !in pages || pages[url].RequestError?) ==> r == []
    ensures url in pages && pages[url].Ok? ==> r == pages[url].items
  {
    if url in pages && pages[url].Ok? then pages[url].items else []
  }

  function ProposalsRequest(ctx: Context): string {
    ProposalsUrl(ctx.chain.nodeUrl, ctx.cfg.proposalsCount)
  }

  function VotesRequest(ctx: Context, id: string): string {
    VotesUrl(ctx.chain.nodeUrl, id, ctx.cfg.votersCount)
  }

  function FetchProposals(ctx: Context): seq<Proposal> {
    Fetch(ctx.net.proposalPages, ProposalsRequest(ctx))
  }

  function FetchVotes(ctx: Context, id: string): seq<Vote> {
    Fetch(ctx.net.votePages, VotesRequest(ctx, id))
  }

  /** The voting window holds `now`, both ends included. */
  predicate IsProposalActive(p: Proposal, now: int)
    ensures IsProposalActive(p, now) ==> p.votingStart <= p.votingEnd
    ensures now < p.votingStart || p.votingEnd < now ==> !IsProposalActive(p, now)
  {
    p.votingStart <= now <= p.votingEnd
  }

  /** Some vote record's `voter` is the address; the records are scanned
      front to back. */
  function HasVoted(votes: seq<Vote>, address: string): (r: bool)
    ensures r <==> exists i :: 0 <= i < |votes| && votes[i].voter == address
  {
    if votes == [] then false
    else votes[0].voter == address || HasVoted(votes[1..], address)
  }

  /** The addresses on a vote list. */
  function Voters(votes: seq<Vote>): set<string> {
    set i | 0 <= i < |votes| :: votes[i].voter
  }

  function EntryOf(p: Proposal): Entry {
    Entry(p.id, p.title)
  }

  /** The proposal is listed: active, and not on its fetched vote list. */
  predicate NotVotedOn(ctx: Context, p: Proposal) {
    IsProposalActive(p, ctx.now) && !HasVoted(FetchVotes(ctx, p.id), ctx.chain.validatorAddress)
  }

  /** The not-voted list for a proposal list, in input order. */
  function NotVoted(ctx: Context, ps: seq<Proposal>): seq<Entry>
    decreases |ps|
  {
    if ps == [] then []
    else
      var last := ps[|ps| - 1];
      NotVoted(ctx, ps[..|ps| - 1]) + (if NotVotedOn(ctx, last) then [EntryOf(last)] else [])
  }

  /** The vote-list URLs requested for a proposal list, in input order. */
  function VoteRequests(ctx: Context, ps: seq<Proposal>): seq<string>
    decreases |ps|
  {
    if ps == [] then []
    else
      var last := ps[|ps| - 1];
      VoteRequests(ctx, ps[..|ps| - 1]) + (if IsProposalActive(last, ctx.now) then [VotesRequest(ctx, last.id)] else [])
  }

  /** The accumulation loop of one call. Returns the not-voted list and the
      URLs requested, in order: the proposal list first, then one vote list
      per active proposal. */
  method CollectNotVoted(ctx: Context) returns (notVoted: seq<Entry>, requested: seq<string>)
    ensures notVoted == NotVoted(ctx, FetchProposals(ctx))
    ensures requested == [ProposalsRequest(ctx)] + VoteRequests(ctx, FetchProposals(ctx))
  {
    requested := [ProposalsRequest(ctx)];
    var proposals := FetchProposals(ctx);
    notVoted := [];
    var i := 0;
    while i < |proposals|
      invariant 0 <= i <= |proposals|
      invariant notVoted == NotVoted(ctx, proposals[..i])
      invariant requested == [ProposalsRequest(ctx)] + VoteRequests(ctx, proposals[..i])
    {
      var proposal := proposals[i];
      assert proposals[..i + 1][..i] == proposals[..i];
      i := i + 1;
      if !IsProposalActive(proposal, ctx.now) {
        continue;
      }
      requested := requested + [VotesRequest(ctx, proposal.id)];
      var votes := FetchVotes(ctx, proposal.id);
      if !HasVoted(votes, ctx.chain.validatorAddress) {
        notVoted := notVoted + [EntryOf(proposal)];
      }
    }
    assert proposals[..i] == proposals;
  }

  // ---------------------------------------------------------------------------
  // The activity window

  lemma ActiveWindowInclusive(p: Proposal, now: int)
    requires p.votingStart <= p.votingEnd
    ensures IsProposalActive(p, p.votingStart) && IsProposalActive(p, p.votingEnd)
    ensures !IsProposalActive(p, p.votingStart - 1) && !IsProposalActive(p, p.votingEnd + 1)
    ensures IsProposalActive(p, now) <==> p.votingStart <= now && now <= p.votingEnd
  {
  }

  // ---------------------------------------------------------------------------
  // Membership of the address among the voters

  /** Whether the address voted depends only on the set of voters. */
  lemma HasVotedIffVoter(votes: seq<Vote>, address: string)
    ensures HasVoted(votes, address) <==> address in Voters(votes)
  {
  }

  /** Reordering the vote records does not change the outcome. */
  lemma HasVotedPermutation(v1: seq<Vote>, v2: seq<Vote>, address: string)
    requires multiset(v1) == multiset(v2)
    ensures HasVoted(v1, address) == HasVoted(v2, address)
  {
    if HasVoted(v1, address) {
      var i :| 0 <= i < |v1| && v1[i].voter == address;
      assert v1[i] in multiset(v2);
      var j :| 0 <= j < |v2| && v2[j] == v1[i];
    }
    if HasVoted(v2, address) {
      var j :| 0 <= j < |v2| && v2[j].voter == address;
      assert v2[j] in multiset(v1);
      var i :| 0 <= i < |v1| && v1[i] == v2[j];
    }
  }

  /** Repeating a vote record already on the list does not change the outcome. */
  lemma HasVotedDuplicate(votes: seq<Vote>, k: nat, address: string)
    requires k < |votes|
    ensures HasVoted(votes + [votes[k]], address) == HasVoted(votes, address)
  {
    var w := votes + [votes[k]];
    if HasVoted(w, address) {
      var i :| 0 <= i < |w| && w[i].voter == address;
      assert votes[if i < |votes| then i else k].voter == address;
    }
    if HasVoted(votes, address) {
      var i :| 0 <= i < |votes| && votes[i].voter == address;
      assert w[i].voter == address;
    }
  }

  // ---------------------------------------------------------------------------
  // The not-voted list

  /** The list splits along its input: it keeps the input's relative order. */
  lemma {:induction false} NotVotedConcat(ctx: Context, a: seq<Proposal>, b: seq<Proposal>)
    ensures NotVoted(ctx, a + b) == NotVoted(ctx, a) + NotVoted(ctx, b)
    decreases |b|
  {
    if b == [] {
      assert a + b == a;
    } else {
      var b' := b[..|b| - 1];
      assert (a + b)[..|a + b| - 1] == a + b';
      assert (a + b)[|a + b| - 1] == b[|b| - 1];
      NotVotedConcat(ctx, a, b');
    }
  }

  /** Reordering the fetched proposals reorders the list and nothing more:
      the same entries, each as often, so the count does not change. */
  lemma {:induction false} NotVotedPermutation(ctx: Context, a: seq<Proposal>, b: seq<Proposal>)
    requires multiset(a) == multiset(b)
    ensures multiset(NotVoted(ctx, a)) == multiset(NotVoted(ctx, b))
    ensures |NotVoted(ctx, a)| == |NotVoted(ctx, b)|
    decreases |a|
  {
    if a == [] {
      assert |b| == |multiset(b)| == 0;
    } else {
      var init, last := a[..|a| - 1], a[|a| - 1];
      var pre, post := SplitAt(a, b);
      NotVotedPermutation(ctx, init, pre + post);
      assert a == init + [last];
      NotVotedConcat(ctx, init, [last]);
      NotVotedConcat(ctx, pre, [last] + post);
      NotVotedConcat(ctx, [last], post);
      NotVotedConcat(ctx, pre, post);
    }
    assert |NotVoted(ctx, a)| == |multiset(NotVoted(ctx, a))|;
    assert |NotVoted(ctx, b)| == |multiset(NotVoted(ctx, b))|;
  }

  /** A permutation of a non-empty list splits around an occurrence of the
      list's last element. */
  lemma SplitAt<T>(a: seq<T>, b: seq<T>) returns (pre: seq<T>, post: seq<T>)
    requires a != [] && multiset(a) == multiset(b)
    ensures b == pre + ([a[|a| - 1]] + post)
    ensures multiset(a[..|a| - 1]) == multiset(pre + post)
  {
    var init, last := a[..|a| - 1], a[|a| - 1];
    assert a == init + [last];
    assert last in multiset(a);
    var j :| 0 <= j < |b| && b[j] == last;
    pre, post := b[..j], b[j + 1..];
    assert b == pre + ([last] + post);
    calc {
      multiset(init);
      multiset(a) - multiset{last};
      multiset(b) - multiset{last};
      multiset(pre) + multiset{last} + multiset(post) - multiset{last};
      multiset(pre) + multiset(post);
      multiset(pre + post);
    }
  }

  /** A single proposal contributes its entry exactly when it is listed. */
  lemma NotVotedSingle(ctx: Context, p: Proposal)
    ensures NotVoted(ctx, [p]) == if NotVotedOn(ctx, p) then [EntryOf(p)] else []
  {
  }

  /** An entry is on the list exactly when some active proposal with that id
      and title has no vote record for the tracked address. */
  lemma {:induction false} NotVotedMembership(ctx: Context, ps: seq<Proposal>, e: Entry)
    ensures e in NotVoted(ctx, ps) <==>
              exists i :: 0 <= i < |ps| && NotVotedOn(ctx, ps[i]) && EntryOf(ps[i]) == e
    decreases |ps|
  {
    if ps != [] {
      var init := ps[..|ps| - 1];
      NotVotedMembership(ctx, init, e);
      if e in NotVoted(ctx, init) {
        var i :| 0 <= i < |init| && NotVotedOn(ctx, init[i]) && EntryOf(init[i]) == e;
        assert ps[i] == init[i];
      }
      if exists i :: 0 <= i < |ps| && NotVotedOn(ctx, ps[i]) && EntryOf(ps[i]) == e {
        var i :| 0 <= i < |ps| && NotVotedOn(ctx, ps[i]) && EntryOf(ps[i]) == e;
        if i < |init| {
          assert init[i] == ps[i];
        }
      }
    }
  }

  /** Every entry comes from an active proposal; an inactive proposal whose
      entry no active proposal shares is never listed. */
  lemma InactiveNeverListed(ctx: Context, ps: seq<Proposal>, k: nat)
    requires k < |ps| && !IsProposalActive(ps[k], ctx.now)
    requires forall i :: 0 <= i < |ps| && IsProposalActive(ps[i], ctx.now) ==> EntryOf(ps[i]) != EntryOf(ps[k])
    ensures EntryOf(ps[k]) !in NotVoted(ctx, ps)
  {
    NotVotedMembership(ctx, ps, EntryOf(ps[k]));
  }

  /** The list is never longer than the proposal list. */
  lemma {:induction false} NotVotedLength(ctx: Context, ps: seq<Proposal>)
    ensures |NotVoted(ctx, ps)| <= |ps|
    decreases |ps|
  {
    if ps != [] {
      NotVotedLength(ctx, ps[..|ps| - 1]);
    }
  }

  /** One vote-list URL per active proposal, in order. */
  lemma {:induction false} VoteRequestsLength(ctx: Context, ps: seq<Proposal>)
    ensures |VoteRequests(ctx, ps)| <= |ps|
    ensures (forall i :: 0 <= i < |ps| ==> IsProposalActive(ps[i], ctx.now)) ==> |VoteRequests(ctx, ps)| == |ps|
    ensures (forall i :: 0 <= i < |ps| ==> !IsProposalActive(ps[i], ctx.now)) ==> VoteRequests(ctx, ps) == []
    decreases |ps|
  {
    if ps != [] {
      VoteRequestsLength(ctx, ps[..|ps| - 1]);
    }
  }

  /** A proposal's vote list is requested exactly when some proposal with its
      id is active: no vote lookup is issued for an inactive proposal. */
  lemma {:induction false} VoteRequestedIffActive(ctx: Context, ps: seq<Proposal>, id: string)
    ensures VotesRequest(ctx, id) in VoteRequests(ctx, ps) <==>
              exists i :: 0 <= i < |ps| && IsProposalActive(ps[i], ctx.now) && ps[i].id == id
    decreases |ps|
  {
    if ps != [] {
      var init := ps[..|ps| - 1];
      var last := ps[|ps| - 1];
      VoteRequestedIffActive(ctx, init, id);
      if VotesRequest(ctx, id) in VoteRequests(ctx, ps) {
        if VotesRequest(ctx, id) in VoteRequests(ctx, init) {
          var i :| 0 <= i < |init| && IsProposalActive(init[i], ctx.now) && init[i].id == id;
          assert ps[i] == init[i];
        } else {
          VotesUrlInjective(ctx.chain.nodeUrl, id, last.id, ctx.cfg.votersCount);
          assert IsProposalActive(ps[|ps| - 1], ctx.now) && ps[|ps| - 1].id == id;
        }
      }
      if exists i :: 0 <= i < |ps| && IsProposalActive(ps[i], ctx.now) && ps[i].id == id {
        var i :| 0 <= i < |ps| && IsProposalActive(ps[i], ctx.now) && ps[i].id == id;
        if i < |init| {
          assert init[i] == ps[i];
        }
      }
    }
  }

  /** A failed vote fetch of an active proposal lists it as not voted. */
  lemma VoteFetchFailureListed(ctx: Context, p: Proposal)
    requires IsProposalActive(p, ctx.now)
    requires VotesRequest(ctx, p.id) !in ctx.net.votePages || ctx.net.votePages[VotesRequest(ctx, p.id)].RequestError?
    ensures NotVoted(ctx, [p]) == [EntryOf(p)]
  {
  }

  /** A failed vote fetch is indistinguishable from an empty vote list. */
  lemma {:induction false} VoteFetchFailureConflated(ctx: Context, ps: seq<Proposal>, url: string)
    ensures NotVoted(ctx.(net := ctx.net.(votePages := ctx.net.votePages[url := RequestError])), ps)
         == NotVoted(ctx.(net := ctx.net.(votePages := ctx.net.votePages[url := Ok([])])), ps)
    decreases |ps|
  {
    if ps != [] {
      VoteFetchFailureConflated(ctx, ps[..|ps| - 1], url);
    }
  }

  /** The list depends on each fetched vote list only through its set of
      voters: reordered or duplicated records give the same list. */
  lemma {:induction false} NotVotedDependsOnVoters(ctx: Context, net: Network, ps: seq<Proposal>)
    requires forall id :: Voters(FetchVotes(ctx, id)) == Voters(FetchVotes(ctx.(net := net), id))
    ensures NotVoted(ctx, ps) == NotVoted(ctx.(net := net), ps)
    decreases |ps|
  {
    if ps != [] {
      var last := ps[|ps| - 1];
      var address := ctx.chain.validatorAddress;
      NotVotedDependsOnVoters(ctx, net, ps[..|ps| - 1]);
      HasVotedIffVoter(FetchVotes(ctx, last.id), address);
      HasVotedIffVoter(FetchVotes(ctx.(net := net), last.id), address);
    }
  }
}
