/** The two Prometheus metrics the exporter writes: a per-chain gauge of the
    not-voted count and an info record per (chain, proposal id) carrying the
    proposal title. The registry is modelled as two maps that are only ever
    set, never cleared. */
module Metrics {
  import opened Reconciliation

  /** The label set of an info record: (chain, proposal id). */
  type InfoKey = (string, string)

  /** The values exposed by the registry. */
  datatype MetricsState = MetricsState(gauge: map<string, int>, info: map<InfoKey, string>)

  /** The info label sets one publication writes. */
  function InfoKeys(chainName: string, entries: seq<Entry>): set<InfoKey> {
    set i | 0 <= i < |entries| :: (chainName, entries[i].id)
  }

  /** The info records after writing each entry's title in turn. */
  function ApplyInfo(info: map<InfoKey, string>, chainName: string, entries: seq<Entry>): map<InfoKey, string>
    decreases |entries|
  {
    if entries == [] then info
    else
      var last := entries[|entries| - 1];
      ApplyInfo(info, chainName, entries[..|entries| - 1])[(chainName, last.id) := last.title]
  }

  /** The registry after publishing one chain's not-voted list. */
  function Published(s: MetricsState, chainName: string, entries: seq<Entry>): MetricsState {
    MetricsState(s.gauge[chainName := |entries|], ApplyInfo(s.info, chainName, entries))
  }

  /** The registry after one reconciliation of one chain. */
  function Reconciled(s: MetricsState, ctx: Context): MetricsState {
    Published(s, ctx.chain.name, NotVoted(ctx, FetchProposals(ctx)))
  }

  /** The registry after reconciling every configured chain once, in order. */
  function Cycle(s: MetricsState, chains: seq<ChainTarget>, net: Network, cfg: Config, now: int): MetricsState
    decreases |chains|
  {
    if chains == [] then s
    else Reconciled(Cycle(s, chains[..|chains| - 1], net, cfg, now), Context(net, cfg, chains[|chains| - 1], now))
  }

  class Registry {
    var gauge: map<string, int>
    var info: map<InfoKey, string>

    function State(): MetricsState
      reads this
    {
      MetricsState(gauge, info)
    }

    constructor ()
      ensures State() == MetricsState(map[], map[])
    {
      gauge := map[];
      info := map[];
    }

    /** Set the chain's gauge to the list's length, then write one info
        record per entry. */
    method Publish(chainName: string, entries: seq<Entry>)
      modifies this
      ensures State() == Published(old(State()), chainName, entries)
    {
      gauge := gauge[chainName := |entries|];
      var i := 0;
      while i < |entries|
        invariant 0 <= i <= |entries|
        invariant gauge == old(gauge)[chainName := |entries|]
        invariant info == ApplyInfo(old(info), chainName, entries[..i])
      {
        assert entries[..i + 1][..i] == entries[..i];
        info := info[(chainName, entries[i].id) := entries[i].title];
        i := i + 1;
      }
      assert entries[..i] == entries;
    }

    /** One reconciliation of one chain; returns the URLs it requested. */
    method CheckNotVotedProposals(chain: ChainTarget, net: Network, cfg: Config, now: int)
      returns (requested: seq<string>)
      modifies this
      ensures State() == Reconciled(old(State()), Context(net, cfg, chain, now))
      ensures requested == [ProposalsRequest(Context(net, cfg, chain, now))]
                           + VoteRequests(Context(net, cfg, chain, now), FetchProposals(Context(net, cfg, chain, now)))
    {
      var notVoted;
      notVoted, requested := CollectNotVoted(Context(net, cfg, chain, now));
      Publish(chain.name, notVoted);
    }

    /** One pass of the poll loop over the configured chains. */
    method RunCycle(chains: seq<ChainTarget>, net: Network, cfg: Config, now: int)
      modifies this
      ensures State() == Cycle(old(State()), chains, net, cfg, now)
    {
      var i := 0;
      while i < |chains|
        invariant 0 <= i <= |chains|
        invariant State() == Cycle(old(State()), chains[..i], net, cfg, now)
      {
        assert chains[..i + 1][..i] == chains[..i];
        var _ := CheckNotVotedProposals(chains[i], net, cfg, now);
        i := i + 1;
      }
      assert chains[..i] == chains;
    }
  }

  // ---------------------------------------------------------------------------
  // Info records

  /** Publishing only adds label sets: the new keys are the old ones plus one
      per entry, so no record of an earlier cycle is removed. */
  lemma {:induction false} ApplyInfoKeys(info: map<InfoKey, string>, chainName: string, entries: seq<Entry>)
    ensures ApplyInfo(info, chainName, entries).Keys == info.Keys + InfoKeys(chainName, entries)
    decreases |entries|
  {
    if entries != [] {
      var init := entries[..|entries| - 1];
      ApplyInfoKeys(info, chainName, init);
      forall k | k in InfoKeys(chainName, entries)
        ensures k in InfoKeys(chainName, init) + {(chainName, entries[|entries| - 1].id)}
      {
        var i :| 0 <= i < |entries| && k == (chainName, entries[i].id);
        if i < |init| {
          assert init[i] == entries[i];
        }
      }
      forall k | k in InfoKeys(chainName, init)
        ensures k in InfoKeys(chainName, entries)
      {
        var i :| 0 <= i < |init| && k == (chainName, init[i].id);
        assert entries[i] == init[i];
      }
    }
  }

  /** A label set no entry writes keeps its record, or its absence. */
  lemma {:induction false} ApplyInfoUnchanged(info: map<InfoKey, string>, chainName: string, entries: seq<Entry>, key: InfoKey)
    requires forall i :: 0 <= i < |entries| ==> key != (chainName, entries[i].id)
    ensures key in ApplyInfo(info, chainName, entries) <==> key in info
    ensures key in info ==> ApplyInfo(info, chainName, entries)[key] == info[key]
    decreases |entries|
  {
    if entries != [] {
      ApplyInfoUnchanged(info, chainName, entries[..|entries| - 1], key);
    }
  }

  /** Each entry's record holds its title unless a later entry has the same
      id: when ids repeat, the later title wins. */
  lemma {:induction false} ApplyInfoLastWins(info: map<InfoKey, string>, chainName: string, entries: seq<Entry>, k: nat)
    requires k < |entries|
    requires forall j :: k < j < |entries| ==> entries[j].id != entries[k].id
    ensures (chainName, entries[k].id) in ApplyInfo(info, chainName, entries)
    ensures ApplyInfo(info, chainName, entries)[(chainName, entries[k].id)] == entries[k].title
    decreases |entries|
  {
    if k < |entries| - 1 {
      var init := entries[..|entries| - 1];
      assert init[k] == entries[k];
      ApplyInfoLastWins(info, chainName, init, k);
    }
  }

  // ---------------------------------------------------------------------------
  // One reconciliation

  /** The chain's gauge becomes the not-voted count, at most the number of
      fetched proposals; every other chain's gauge is unchanged. */
  lemma ReconciledGauge(s: MetricsState, ctx: Context, other: string)
    ensures ctx.chain.name in Reconciled(s, ctx).gauge
    ensures Reconciled(s, ctx).gauge[ctx.chain.name] == |NotVoted(ctx, FetchProposals(ctx))|
    ensures 0 <= Reconciled(s, ctx).gauge[ctx.chain.name] <= |FetchProposals(ctx)|
    ensures other != ctx.chain.name ==> (other in Reconciled(s, ctx).gauge <==> other in s.gauge)
    ensures other != ctx.chain.name && other in s.gauge ==> Reconciled(s, ctx).gauge[other] == s.gauge[other]
  {
    NotVotedLength(ctx, FetchProposals(ctx));
  }

  /** After the call every listed proposal has an info record under this
      chain holding its title (the last one, when entries share an id). */
  lemma ReconciledInfoWritten(s: MetricsState, ctx: Context, k: nat)
    requires k < |NotVoted(ctx, FetchProposals(ctx))|
    requires forall j :: k < j < |NotVoted(ctx, FetchProposals(ctx))| ==>
               NotVoted(ctx, FetchProposals(ctx))[j].id != NotVoted(ctx, FetchProposals(ctx))[k].id
    ensures (ctx.chain.name, NotVoted(ctx, FetchProposals(ctx))[k].id) in Reconciled(s, ctx).info
    ensures Reconciled(s, ctx).info[(ctx.chain.name, NotVoted(ctx, FetchProposals(ctx))[k].id)]
         == NotVoted(ctx, FetchProposals(ctx))[k].title
  {
    ApplyInfoLastWins(s.info, ctx.chain.name, NotVoted(ctx, FetchProposals(ctx)), k);
  }

  /** Info records are never removed: every earlier record survives, and one
      that no listed proposal rewrites keeps its title, even when it is this
      chain's record of a proposal that is no longer listed. */
  lemma StaleInfoKept(s: MetricsState, ctx: Context, key: InfoKey)
    requires key in s.info
    ensures key in Reconciled(s, ctx).info
    ensures (forall e :: e in NotVoted(ctx, FetchProposals(ctx)) ==> key != (ctx.chain.name, e.id))
              ==> Reconciled(s, ctx).info[key] == s.info[key]
  {
    var entries := NotVoted(ctx, FetchProposals(ctx));
    ApplyInfoKeys(s.info, ctx.chain.name, entries);
    if forall e :: e in entries ==> key != (ctx.chain.name, e.id) {
      forall i | 0 <= i < |entries| ensures key != (ctx.chain.name, entries[i].id) {
        assert entries[i] in entries;
      }
      ApplyInfoUnchanged(s.info, ctx.chain.name, entries, key);
    }
  }

  /** A failed proposal fetch sets the chain's gauge to 0 and writes no info
      record. */
  lemma ProposalFetchFailure(s: MetricsState, ctx: Context)
    requires ProposalsRequest(ctx) !in ctx.net.proposalPages || ctx.net.proposalPages[ProposalsRequest(ctx)].RequestError?
    ensures Reconciled(s, ctx).gauge == s.gauge[ctx.chain.name := 0]
    ensures Reconciled(s, ctx).info == s.info
  {
  }

  // ---------------------------------------------------------------------------
  // One poll cycle

  /** A chain that is not configured keeps its gauge and its info records. */
  lemma {:induction false} CycleLeavesOtherChains(s: MetricsState, chains: seq<ChainTarget>, net: Network, cfg: Config, now: int,
                                                  name: string, id: string)
    requires forall i :: 0 <= i < |chains| ==> chains[i].name != name
    ensures name in Cycle(s, chains, net, cfg, now).gauge <==> name in s.gauge
    ensures name in s.gauge ==> Cycle(s, chains, net, cfg, now).gauge[name] == s.gauge[name]
    ensures (name, id) in Cycle(s, chains, net, cfg, now).info <==> (name, id) in s.info
    ensures (name, id) in s.info ==> Cycle(s, chains, net, cfg, now).info[(name, id)] == s.info[(name, id)]
    decreases |chains|
  {
    if chains != [] {
      var init := chains[..|chains| - 1];
      var ctx := Context(net, cfg, chains[|chains| - 1], now);
      var before := Cycle(s, init, net, cfg, now);
      CycleLeavesOtherChains(s, init, net, cfg, now, name, id);
      ApplyInfoUnchanged(before.info, ctx.chain.name, NotVoted(ctx, FetchProposals(ctx)), (name, id));
    }
  }

  /** After a cycle a configured chain's gauge holds the not-voted count of
      the last configured chain with that name. */
  lemma {:induction false} CycleGaugeOfLastChain(s: MetricsState, chains: seq<ChainTarget>, net: Network, cfg: Config, now: int, i: nat)
    requires i < |chains|
    requires forall j :: i < j < |chains| ==> chains[j].name != chains[i].name
    ensures chains[i].name in Cycle(s, chains, net, cfg, now).gauge
    ensures Cycle(s, chains, net, cfg, now).gauge[chains[i].name]
         == |NotVoted(Context(net, cfg, chains[i], now), FetchProposals(Context(net, cfg, chains[i], now)))|
    decreases |chains|
  {
    var init := chains[..|chains| - 1];
    var ctx := Context(net, cfg, chains[|chains| - 1], now);
    var before := Cycle(s, init, net, cfg, now);
    if i < |chains| - 1 {
      assert init[i] == chains[i];
      CycleGaugeOfLastChain(s, init, net, cfg, now, i);
      ReconciledGauge(before, ctx, chains[i].name);
    }
  }

  /** After a cycle every configured chain has a gauge. */
  lemma {:induction false} CycleSetsEveryGauge(s: MetricsState, chains: seq<ChainTarget>, net: Network, cfg: Config, now: int)
    ensures forall i :: 0 <= i < |chains| ==> chains[i].name in Cycle(s, chains, net, cfg, now).gauge
    decreases |chains|
  {
    if chains != [] {
      var init := chains[..|chains| - 1];
      CycleSetsEveryGauge(s, init, net, cfg, now);
      forall i | 0 <= i < |init| ensures chains[i].name in Cycle(s, chains, net, cfg, now).gauge {
        assert chains[i] == init[i];
      }
    }
  }

  // ---------------------------------------------------------------------------
  // Two single-proposal scenarios

  /** One active proposal whose vote list lacks the address: count 1 and one
      record carrying its title. */
  lemma ScenarioNotVoted(s: MetricsState, chain: ChainTarget, cfg: Config, t: int)
    requires chain.validatorAddress != "other"
    ensures var p := Proposal("1", "Upgrade", t - 10, t + 10);
            var ctx0 := Context(Network(map[], map[]), cfg, chain, t);
            var net := Network(map[ProposalsRequest(ctx0) := Ok([p])],
                               map[VotesRequest(ctx0, "1") := Ok([Vote("other", "YES")])]);
            var after := Reconciled(s, ctx0.(net := net));
            after.gauge[chain.name] == 1 && after.info[(chain.name, "1")] == "Upgrade"
  {
    var p := Proposal("1", "Upgrade", t - 10, t + 10);
    var ctx0 := Context(Network(map[], map[]), cfg, chain, t);
    var net := Network(map[ProposalsRequest(ctx0) := Ok([p])],
                       map[VotesRequest(ctx0, "1") := Ok([Vote("other", "YES")])]);
    var ctx := ctx0.(net := net);
    assert FetchProposals(ctx) == [p];
    assert !HasVoted(FetchVotes(ctx, "1"), chain.validatorAddress);
    NotVotedSingle(ctx, p);
  }

  /** The same proposal with the address on its vote list: count 0 and no
      record written. */
  lemma ScenarioVoted(s: MetricsState, chain: ChainTarget, cfg: Config, t: int)
    ensures var p := Proposal("1", "Upgrade", t - 10, t + 10);
            var ctx0 := Context(Network(map[], map[]), cfg, chain, t);
            var net := Network(map[ProposalsRequest(ctx0) := Ok([p])],
                               map[VotesRequest(ctx0, "1") := Ok([Vote(chain.validatorAddress, "YES")])]);
            var after := Reconciled(s, ctx0.(net := net));
            after.gauge[chain.name] == 0 && after.info == s.info
  {
    var p := Proposal("1", "Upgrade", t - 10, t + 10);
    var ctx0 := Context(Network(map[], map[]), cfg, chain, t);
    var net := Network(map[ProposalsRequest(ctx0) := Ok([p])],
                       map[VotesRequest(ctx0, "1") := Ok([Vote(chain.validatorAddress, "YES")])]);
    var ctx := ctx0.(net := net);
    assert FetchProposals(ctx) == [p];
    assert HasVoted(FetchVotes(ctx, "1"), chain.validatorAddress);
    NotVotedSingle(ctx, p);
  }
}
