# Cosmos governance not-voted exporter: a Dafny model

The exporter polls the REST endpoint of one or more Cosmos full nodes. For each
configured chain it fetches the latest governance proposals and keeps those whose
voting window holds the current instant. For each of those it fetches one page of
the proposal's vote list and records `{id, title}` when the chain's
validator address is not among the voters. It then publishes two Prometheus
metrics. One is a gauge per chain holding the number of such proposals. The
other is an info record per (chain, proposal id) holding the proposal title.

The model has three modules:

- `Endpoints` (endpoints.dfy): the proposal-list and vote-list URLs. It also
  renders the page sizes as decimal text, which the exporter does with
  `str.format`.
- `Reconciliation` (reconciliation.dfy) covers the data and the vote checks:
  - the proposal, vote and not-voted-entry records;
  - the activity-window test;
  - the `any(...)` membership test;
  - the accumulation loop (`CollectNotVoted`), proved against the
    specification function `NotVoted`.
- `Metrics` (metrics.dfy): the metrics registry as a class `Registry` with two
  map fields. `gauge` maps a chain name to a count. `info` maps a
  (chain, proposal id) label pair to a title. `Publish`,
  `CheckNotVotedProposals` and `RunCycle` change it in place, and each is proved
  against a pure function of the old state: `Published`, `Reconciled`, `Cycle`.

The network is a value of type `Network`. It holds two maps from the
requested URL to a `Response`, which is either `Ok(items)` or `RequestError`.
A URL with no entry behaves as a request that raised. As in the source, a
failed fetch yields the empty list. Timestamps are integers, and `now` is a
parameter. The page sizes are a `Config` value; the defaults are 50 and 200.

Two behaviours of the exporter are stated outright:

- A failed vote fetch is not told apart from an empty vote list, so the
  proposal is listed as not voted (`VoteFetchFailureListed`,
  `VoteFetchFailureConflated`).
- Info records are only ever set, never removed: a record from an earlier
  cycle stays after its proposal is no longer listed (`StaleInfoKept`,
  `ApplyInfoKeys`).

The vote list is one page of at most the configured number of voters. A voter
beyond that page is indistinguishable from a non-voter. The model takes the
page the node returned as its input, so this limitation is kept, not fixed.

## Model

| member | source | states |
|---|---|---|
| `Endpoints.ProposalsUrl` | exporter.py:23-32 | the proposal-list URL begins with the node's base URL and ends with the count-total query parameter |
| `Endpoints.VotesUrl` | exporter.py:24-45 | the vote-list URL begins with the node's base URL, and the proposal id follows the votes path verbatim |
| `Endpoints.Decimal` | exporter.py:32 | the page size is rendered as a non-empty string of decimal digits with no leading zero |
| `Endpoints.DecimalRoundTrip` | exporter.py:32 | reading the rendered digits back gives the original number |
| `Endpoints.DecimalInjective` | exporter.py:45 | two numbers with the same rendering are equal |
| `Endpoints.ProposalsUrlInjective` | exporter.py:32 | for one node, different page sizes give different proposal-list URLs |
| `Endpoints.VotesUrlInjective` | exporter.py:45 | for one node and page size, different proposal ids give different vote-list URLs, so each vote request names exactly one proposal |
| `Endpoints.UrlsStartWithNode` | exporter.py:45 | both request URLs begin with the node's base URL |
| `Reconciliation.Fetch` | exporter.py:30-54 | a request error, or a URL with no answer, yields `[]`; a successful response yields its list |
| `Reconciliation.HasVoted` | exporter.py:76 | true exactly when some vote record's `voter` equals the address |
| `Reconciliation.CollectNotVoted` | exporter.py:62-80 | the loop returns exactly `NotVoted` of the fetched proposals; the URLs it requests are the proposal list first, then one vote list per active proposal, in input order |
| `Reconciliation.IsProposalActive` | exporter.py:56-60 | an active proposal has a non-empty window, and an instant before the start or after the end is never active |
| `Reconciliation.ActiveWindowInclusive` | exporter.py:56-60 | a proposal is active exactly when start <= now <= end: active at both bounds, and inactive one tick before the start or one tick after the end |
| `Reconciliation.HasVotedIffVoter` | exporter.py:76 | voting is membership of the address in the set of voters |
| `Reconciliation.HasVotedPermutation` | exporter.py:76 | reordering the vote records does not change the outcome |
| `Reconciliation.HasVotedDuplicate` | exporter.py:76 | repeating a vote record does not change the outcome |
| `Reconciliation.NotVotedConcat` | exporter.py:70-80 | the list for `a + b` is the list for `a` followed by the list for `b`, so input order is kept |
| `Reconciliation.NotVotedPermutation` | exporter.py:70-82 | reordering the fetched proposals gives the same entries, each as often, so the count and the gauge do not change |
| `Reconciliation.NotVotedSingle` | exporter.py:71-80 | one proposal adds `{id, title}` exactly when it is active and the address is not among its fetched voters |
| `Reconciliation.NotVotedMembership` | exporter.py:68-80 | an entry is listed exactly when some active proposal with that id and title has no vote record for the address (both directions) |
| `Reconciliation.InactiveNeverListed` | exporter.py:71-72 | an inactive proposal whose entry no active proposal shares never appears |
| `Reconciliation.NotVotedLength` | exporter.py:68-80 | the list has at most as many entries as there are fetched proposals |
| `Reconciliation.VoteRequestsLength` | exporter.py:71-75 | at most one vote request per proposal, one for each when all are active, none when none is |
| `Reconciliation.VoteRequestedIffActive` | exporter.py:71-75 | a proposal id's vote list is requested exactly when some proposal with that id is active, so no lookup is issued for an inactive proposal |
| `Reconciliation.VoteFetchFailureListed` | exporter.py:52-54 | an active proposal whose vote fetch fails is listed as not voted |
| `Reconciliation.VoteFetchFailureConflated` | exporter.py:52-54 | a failed vote fetch gives the same list as an empty vote list |
| `Reconciliation.NotVotedDependsOnVoters` | exporter.py:75-76 | two networks whose vote lists have the same voter sets give the same list |
| `Metrics.Registry.constructor` | exporter.py:27-28 | both metrics start with no label set |
| `Metrics.Registry.Publish` | exporter.py:82-86 | the gauge for the chain becomes the list length, then each entry's title is written under (chain, id) in order; no other key changes |
| `Metrics.Registry.CheckNotVotedProposals` | exporter.py:62-86 | the registry becomes `Reconciled` of its old value; the requested URLs are as in `CollectNotVoted` |
| `Metrics.Registry.RunCycle` | exporter.py:95-96 | the registry becomes the result of reconciling each configured chain once, in order |
| `Metrics.ApplyInfoKeys` | exporter.py:83-86 | the info keys after publishing are the old keys plus one (chain, id) per entry: nothing is removed |
| `Metrics.ApplyInfoUnchanged` | exporter.py:83-86 | a key that no entry writes keeps its value, or stays absent |
| `Metrics.ApplyInfoLastWins` | exporter.py:83-86 | each entry's title is stored unless a later entry has the same id, so the later title wins |
| `Metrics.ReconciledGauge` | exporter.py:82 | the chain's gauge becomes the not-voted count, which is at most the number of fetched proposals; every other chain's gauge is unchanged |
| `Metrics.ReconciledInfoWritten` | exporter.py:83-86 | every listed proposal has an info record under this chain holding its title, unless a later listed entry has the same id |
| `Metrics.StaleInfoKept` | exporter.py:83-86 | every earlier info record survives; one no listed proposal rewrites keeps its title, including records for this chain from earlier cycles |
| `Metrics.ProposalFetchFailure` | exporter.py:39-41 | a failed proposal fetch sets the chain's gauge to 0 and leaves the info records as they were |
| `Metrics.CycleLeavesOtherChains` | exporter.py:95-96 | a chain that is not configured keeps its gauge and its info records through a cycle |
| `Metrics.CycleGaugeOfLastChain` | exporter.py:95-96 | after a cycle a configured chain's gauge holds the not-voted count of the last configured chain with that name |
| `Metrics.CycleSetsEveryGauge` | exporter.py:95-96 | after a cycle every configured chain has a gauge |
| `Metrics.ScenarioNotVoted` | exporter.py:62-86 | one active proposal whose vote list lacks the address gives a count of 1 and a record with its title |
| `Metrics.ScenarioVoted` | exporter.py:62-86 | the same proposal with the address among its voters gives a count of 0 and writes no record |

## Left out

- Loading `config.yaml` (exporter.py:13-20) is file I/O. The chain list and page sizes are parameters (`ChainTarget`, `Config`, with `DefaultConfig` holding 50 and 200).
- HTTP requests, `raise_for_status` and JSON decoding (exporter.py:34-36, 47-49) are network and library calls. They become lookups in `Network`. A transport failure, a non-2xx status or undecodable JSON gives `RequestError`.
- A 2xx body that is not a JSON object, or whose list field is null, raises outside the `except` (exporter.py:36-37, 49-50) and ends the poll loop. The model has no such body.
- The network is a fixed map, so a URL requested twice gets the same answer each time. In the source the two requests are separate and can be answered differently. This happens for a repeated proposal id, or for two chains on one node. `NotVotedPermutation` relies on this as well as on the single `now`.
- Timestamp parsing with `dateutil` and the UTC replacement (exporter.py:58-59) are a foreign library. Timestamps are integers on one clock.
- `datetime.now` is sampled once per proposal in the source (exporter.py:57). The model takes one `now` per call, and `RunCycle` uses that one `now` for every chain, so clock drift within a cycle is not modelled.
- A proposal without `id`, `title` or timestamps, or a vote without `voter`, raises an uncaught exception in the source. That would end the poll loop. The likely real case is a proposal still in its deposit period, whose voting times are null: `date_parser.parse(None)` raises at exporter.py:58. The model's records always have these fields, so this failure is not modelled.
- Logging carries no semantic content and is omitted.
- Unregistering the default collectors, `start_http_server` (exporter.py:90-93) and Prometheus internals are not modelled. The metrics are two maps. The gauge's floating-point value is modelled as an integer.
- The infinite loop with `time.sleep` (exporter.py:94-97) is scheduling. One pass over the chains is `RunCycle`.
- How the node truncates the vote list to the page size is the node's behaviour, not the exporter's. The model takes the returned page as given.
