# SWIFT on an SDX, verified

This project models the algorithms that let a SWIFTED exchange point reroute around a remote link
failure before BGP has converged, and proves what they promise.

* **xrs, one process per peer.** Every AS path of a peer is kept in a weighted AS graph
  (`AsTopology`, `AsPaths`). The links that carry most prefixes get codes: one variable-width code
  allocator per depth of the path (`CodeMapping`), a shared bit budget spent from the heaviest link on
  (`BudgetRun`, `TurnOrder`), reference counts that say when a code is free again (`EncodingState`), and
  a refresh that drops the lightest links when a mapping is full (`RefreshRun`, `SortedLinks`). The
  class `Encoding` of `AsLinkEncoding` runs all of it. `FastReroute` has the bit strings: the part of a
  VMAC that carries an AS path, and the pattern and mask that catch the paths across one link.
  `SwiftPeer` is the loop over BGP messages with its routing table, two graphs, sliding window of
  withdrawals and burst; `PeerRun` says on values what a message does to all that, and which messages
  end the process, and `EncoderSteps` which links are encoded after it. `OldVmacs` says what the current
  rules still make of a VMAC handed out earlier in a run. `Bpa` is the inference of the failed links.
* **pctrl, one process per participant.** `SupersetLib` and `Supersets` group participants that
  advertise the same prefixes into few supersets that fit the VMAC. `VmacFields` and
  `FastReroutePolicy` build the 48 bits of a VMAC and the rules that match them. `RouteRank`, `RibTable`,
  `BgpPeer` and `Fec` are the routing tables, the decision process (AS path length, MED and neighbour of
  section 9.1.2.2 of RFC 4271) and the forwarding classes.
* `EndToEnd` joins the two sides: the rules queued for a failed link catch exactly the packets whose next
  hop, backup and AS path call for it, and take each to its backup.

Objects the program updates in place are classes here, and their methods are proved against functions
and predicates on plain values; the theorems are about those. For these functions there are also laws in
plain terms, and `EncoderExamples` works small cases out to the last code. `dafny verify dfyconfig.toml`
checks all.

## How the model reads the program

* AS numbers are naturals, so that none is the sentinel -1. Participants and addresses are naturals too;
  the order of addresses stands for the order of their texts. Sets and dictionaries the program walks in
  hash order are walked in any order.
* `ceil(log(n, 2))` is the exact whole number, `np.percentile` an arbitrary function of the weights, and
  the Fowlkes-Mallows score an arbitrary function that is positive when a withdrawal is hit.
* A withdrawal message carries an AS path only if its update had attributes.
* Times are whole and do not decrease from one message to the next, the threshold that starts a burst is
  positive, and the policies' `fwd` targets are the only input of the rule counts.
* A MAC address is its 48 bits. A table key is a partial record, because the program builds its tuples
  from dictionaries.

## What the proofs found

* `clean_aspath` is called by nobody, and returns `[]` for a loop where its comment says None. Without
  it, a path that crosses one link twice is accepted and makes `ASTopology.remove` raise a KeyError later
  on, unless the graph is silent (`PrependedPathFails`).
* Routes announced before there is an encoder wait in a list. Withdrawing one of them with the message
  that makes the encoder appear pops it from the list by value, a TypeError, whether the peer is silent
  or not: announcing a prefix and withdrawing it is enough (`AnnounceThenWithdrawFails`).
* During a burst, a peer that is not silent writes down the path of every withdrawn prefix. Withdrawing a
  prefix that is neither known nor seen before in this burst, with a message without a path, is a
  TypeError (`UnknownWithdrawalFails`).
* These three are all: `Peer.Run` proves that a run ends early exactly in these cases, given that
  predictions return. A silent peer, or one that hears clean paths and withdrawals that carry a path,
  survives exactly if the message that makes its encoder appear withdraws no waiting route
  (`RunSurvivesIff`); once it has an encoder, it survives everything.
* `Mapping.is_available` predicts too little for a new AS exactly when a mapping with bits has no free
  code and less than 500 codes (`AvailableUnderPredicts`). `compute_encoding` never gets there, so the
  budget holds. Its comment says the result is the number of bits needed; it can be one too high.
* The widths of all depths add up to `max(0, max_bytes - 2) + 2` if the graph has a link at depth 2 when
  they are computed and `max_depth` is at least 2, and to nothing otherwise: to `max_bytes` only if that is
  at least 2. Below 6 they are spent although nothing can be encoded, since the first code of each of two
  mappings costs two bits; from 6 on, something is encoded as soon as a handled depth has a link
  (`EncodesSomethingIff`).
* `Mapping.remove` calls `sys.exit` in a module that does not import `sys`; the call is unreachable.
* The last merge of `minimize_ss_rules_greedy`, which leaves one superset, can go one bit over the limit
  it was given (`LastMergeMayExceed`). The four bits `SuperSets` keeps back make that harmless.
* A recomputation of the supersets leaves a prefix without a superset exactly if the maximal groups do not
  fit the bits, no two of them can be merged and some participant is active (`PlacedIffRoom`).
* When `update_supersets` recomputes, its `return` inside the loop sends the rules of the first superset
  only: complete exactly if all others are empty (`FirstSupersetOnly`).
* `get_vmac` puts a missing backup in front of the others. Backups are at the place of their depth exactly
  if no missing one follows a present one (`BackupsInPlaceIff`, `PresentBeforeMissingMoves`).
* The choice of backups takes the tag table to be full at `2 ** nexthops_nb_bits` tags, but tags start at
  1: they fit exactly while there are fewer (`TagsFitIff`, `SecondTagOverflows`).
* VMACs are padded on the right and fast-reroute rules on the left. The rules of any depth match exactly
  the VMACs they are meant for if, and only if, the sizes of the fields add up to 48 (`SizesMustAddUp`),
  as they do in the sample configuration.
* `process_FR` lets the depth `max_depth + 1` through, for which VMACs have no backup field. At that depth
  the rules of all backups match the same VMACs (`AllBackupsMatch`); they tell VMACs apart exactly at the
  depths from 1 to `max_depth` (`BackupsToldApartIff`). The inference and the rules read their `max_depth`
  from different configuration keys.
* Comparing MEDs within one first AS only is not an order (`ComparisonCanCycle`); two routes through one
  AS stay in order with all others exactly if their MEDs agree with their neighbours
  (`OrderedIffMedAgrees`). A lower MED ranks lower, against section 9.1.2.2 of RFC 4271 and against the
  comment above the method; the model follows the code.
* The incremental decision gives the wrong rank exactly if the current best has no encoded path yet and a
  worse route arrives in one of two ways (`Misled`, `DecisionIsRightIff`); a path of three ASes that has a
  VMAC wins over one of two that has none (`WorseRouteIsTaken`).
* It also overlooks a route: when the neighbour of the current best replaces it by another one that
  compares as equal, the local table keeps the old route, which nobody offers any more, with its path and
  VMAC (`TieIsOverlooked`). Apart from these two, an announcement leads from the full choice to the full
  choice (`DecisionIsFullIff`), and so over whole runs (`RunIsFullIff`).
* A VMAC keeps the codes it was made with, while refreshes release codes and hand them out again. It is
  still right after a run that can have happened without releasing a code of its path (`OldVmacAfterRun`).
  For the nearest link it is right exactly if the AS there owns the same code or none and nobody else owns
  it (`NearestLinkIff`); for deeper links exactly if the crossed link, if encoded, has both its codes and
  no other encoded link has them (`DeeperLinkIff`).

## Model

| member | source | states |
|---|---|---|
| AsPaths.CleanAsPath | xrs/bgp_messages.py:30-43 | [] if an AS comes back after another one; otherwise the ASes of the path, each once, in their order. |
| AsPaths.CollapsePlain | xrs/bgp_messages.py:30-43 | Without prepending, a path has an AS twice exactly if one comes back. |
| AsPaths.CleanPathHasNoRepeatedLink | xrs/bgp_messages.py:30-43 | A cleaned path never crosses a link twice, which is what removals from the graph need. |
| AsPaths.DepthsAreContiguous | xrs/as_topology.py:38-43 | If some path crosses a link at depth d > 1, some path crosses a link at depth d - 1 that leads to it. |
| AsPaths.CountersPlain | xrs/as_topology.py:12-49 | The counters of a table's paths are the numbers of places at which they leave an AS, enter it, cross a link, and cross it at a depth. |
| AsTopology.ASTopology.Add | xrs/as_topology.py:12-49 | Afterwards all node, edge and depth counters equal the counts over one more path, the threshold sets are exact, and the prefix sets hold exactly the prefixes of crossing paths. |
| AsTopology.ASTopology.Remove | xrs/as_topology.py:51-73 | The same with one path less; it fails exactly if prefix sets are kept and the path crosses a link twice. |
| AsTopology.AddingStep | xrs/as_topology.py:12-49 | Every step of an addition keeps each counter equal to the count over the paths plus the part of the new path counted so far. |
| AsTopology.RemovingStep | xrs/as_topology.py:51-73 | Every step of a removal finds all entries it decrements and keeps the counters exact. |
| AsTopology.MissingPrefix | xrs/as_topology.py:71-73 | A link crossed before on the same path has lost its prefix: the KeyError case. |
| CodeMapping.CodeSpacePartition | xrs/encoding.py:31-109 | Free codes and codes in use partition [0, 2^nb_bytes), each AS has a code of its own, and 0 belongs to the sentinel alone. |
| CodeMapping.AddedWf | xrs/encoding.py:31-68 | Adding an AS keeps that partition, whatever branch it takes. |
| CodeMapping.KnownAsIsCounted | xrs/encoding.py:61-68 | A known AS gains one reference of the kind given, and nothing else changes. |
| CodeMapping.RefusedIff | xrs/encoding.py:36-52 | A mapping refuses a new AS, and stays as it is, exactly if it is blocked and has no free code or, when overprovisioning, too few of them: no more than owners, and less than 500. |
| CodeMapping.NewAsGetsLeastCode | xrs/encoding.py:31-59 | A new AS gets the least free code with one reference; a bit is spent if no code was free, and one if the free codes are then no more than the owners and less than 500; each brings the upper half of the new space. |
| CodeMapping.RemovedPlain | xrs/encoding.py:116-132 | One reference less; with the last one the AS goes and its code is free; below zero the process exits. |
| CodeMapping.RemovedWf | xrs/encoding.py:116-132 | Removing a reference keeps it too, unless a counter would go below zero. |
| CodeMapping.AddThenRemove | xrs/encoding.py:31-132 | Removing what has just been added without growth gives back the mapping as it was. |
| CodeMapping.AvailableUnderPredicts | xrs/encoding.py:31-98 | On an open mapping, the prediction is below the cost exactly if the AS is new and a mapping with bits and fewer than 500 codes has none free. |
| CodeMapping.AvailableBounds | xrs/encoding.py:31-98 | With a free code or no bits yet, adding succeeds at no more than the predicted cost, less only at 500 free codes. |
| CodeMapping.ProvisionedNotFull | xrs/encoding.py:46-52 | An overprovisioned mapping of two or more bits has a free code. |
| CodeMapping.AddedProvisioned | xrs/encoding.py:31-68 | Adding within the prediction keeps a mapping overprovisioned, with a free code left. |
| CodeMapping.Mapping.AddByte | xrs/encoding.py:101-109 | The new state is the mapping grown by one bit, with the sentinel at code 0. |
| CodeMapping.Mapping.Add | xrs/encoding.py:31-68 | New state and both results are those of adding one reference: the least free code, growth, or refusal when blocked. |
| CodeMapping.Mapping.Remove | xrs/encoding.py:116-132 | One reference less; the code is freed with the last one. |
| CodeMapping.CodeStringExact | xrs/encoding.py:134-139 | The string of an AS that owns a code is not all zeros and differs from that of every other AS, encoded or not. |
| CodeMapping.CodeStringBits | xrs/encoding.py:134-139 | Bit by bit, the string is the code in binary, padded with zeros in front, or zeros for an AS without a code. |
| EncodingState.UnlinkSound | xrs/encoding.py:116-132 | Removing an encoded link never takes a counter below zero and keeps every counter equal to the encoded links that leave or enter the AS at that depth. |
| EncodingState.EncodeSound | xrs/encoding.py:318-349 | Encoding a link with both codes granted keeps the counters and the partition. |
| EncodingState.OwnsCodeIffTouched | xrs/encoding.py:116-132 | An AS owns a code of a depth exactly if an encoded link leaves or enters it there. |
| EncodingState.UntouchedMapping | xrs/encoding.py:402-453 | A mapping none of whose links are encoded holds nothing but the sentinel. |
| SortedLinks.ComputeSortedList | xrs/encoding.py:184-199 | Per wanted depth, exactly the live links with their weights, in ascending order. |
| SortedLinks.CompletePlain | xrs/encoding.py:184-199 | The lists hold exactly the links of the graph at the wanted depths from 2 to max_depth with their numbers of prefixes, ascending, ties by the ASes. |
| SortedLinks.PickHeaviest | xrs/encoding.py:228-238 | A depth whose last link is heaviest, None only when all lists are empty. |
| SortedLinks.PickLightest | xrs/encoding.py:415-439 | A depth whose first link is lightest, None only when all lists are empty. |
| BudgetRun.SpendStep | xrs/encoding.py:259-283 | A link whose predicted cost fits gets both codes, never half of them, and total, widths and invariants stay within the budget. |
| TurnOrder.NextTurn | xrs/encoding.py:224-290 | Taking the heaviest last link next keeps the turns in descending order of weight and complete. |
| TurnOrder.AllTurnsTaken | xrs/encoding.py:205-290 | In the end every live link of the handled depths has had exactly one turn. |
| TurnOrder.ExaminesPlain | xrs/encoding.py:184-290 | Exactly the links of the graph at the handled depths have a turn, each once, never one with more prefixes later, and of links of one depth with equal numbers the one with the higher ASes first. |
| TurnOrder.LastBitsGoTo | xrs/encoding.py:290-293 | The depths 2 and 3 get one more bit each, with the upper half of the new codes free; nothing else changes. |
| AsLinkEncoding.Encoding.ComputeEncoding | xrs/encoding.py:205-304 | It terminates; the widths add up to the budget exactly; every invariant holds; the state is that of taking up all live links from the heaviest on, encoding each exactly if its predicted cost fits, and giving the bits left over to the mappings with the fewest free codes; then the mappings of depths 2 and 3, and no others, are one bit wider, with the upper half of their new codes free; thresholds come from exactly the encoded weights. |
| EncoderExamples.HeavierLinkFirst | xrs/encoding.py:205-304 | With six bits and a heavier and a lighter link at depth 2, the heavier one alone is encoded, with code 1 at both depths, which end with three bits each, blocked, and the threshold is the percentile of its number. |
| EncoderExamples.LeftOverIsSpread | xrs/encoding.py:241-293 | With eight bits and one link, the two bits left over go one to each mapping, and both end with four bits. |
| AsLinkEncoding.Encoding.TryEncode | xrs/encoding.py:259-290 | A link is encoded exactly if total plus predicted cost is at most max_bytes - 2, otherwise nothing changes. |
| AsLinkEncoding.Encoding.FillUp | xrs/encoding.py:241-255 | Bits left over go, one by one, to a mapping with the fewest free codes, up to max_bytes - 2 in all. |
| AsLinkEncoding.Encoding.FewestFree | xrs/encoding.py:244-246 | A mapping with the fewest free codes. |
| AsLinkEncoding.Encoding.Remove | xrs/encoding.py:357-369 | An encoded link goes with its two references, the overhead is its weight if it is still live, and the exit on underflow is not taken. |
| AsLinkEncoding.Encoding.Withdraw | xrs/encoding.py:388-392 | Of the encoded links exactly those that still carry a prefix stay; widths and thresholds do not change, and whoever owns a code afterwards owned the same before. |
| AsLinkEncoding.WithdrawalPlain | xrs/encoding.py:388-392 | An encoded link stays exactly if a prefix still crosses it at its depth; thresholds stay. |
| AsLinkEncoding.WithdrawalIsDetermined | xrs/encoding.py:388-392 | The state before and the graph determine the state after a withdrawal, down to counters and free codes. |
| AsLinkEncoding.Encoding.Add | xrs/encoding.py:318-349 | Refresh where a mapping is full, then encode exactly if the weight is above the refreshed threshold; no width changes and encoded links stay live; with a free code at both depths every encoded link stays and every AS keeps its code. |
| AsLinkEncoding.RoomMeansNoRefresh | xrs/encoding.py:318-349 | With a free code at both depths the link is encoded exactly if one of its codes is missing, its depth has a threshold and its weight is above it; otherwise nothing changes; nobody loses a code and thresholds stay. |
| AsLinkEncoding.OnlyFullIsRefreshed | xrs/encoding.py:318-349 | A mapping with a free code when its turn comes is not refreshed; one without has half of its codes in use afterwards; the link is encoded exactly if its weight is above the threshold found then. |
| AsLinkEncoding.Encoding.AddIfHeavier | xrs/encoding.py:329-349 | With a free code at both depths neither availability check can fail and no bit is spent. |
| AsLinkEncoding.Encoding.Advertisement | xrs/encoding.py:379-383 | The dead links of the old path go, then the links of the new path are offered one after the other, the link of position i at depth i + 1; links encoded afterwards were encoded before or lie on the new path; every invariant and every width is kept; with two free codes at every depth of the new path no live link is lost and no threshold changes. |
| AsLinkEncoding.AdvertisedWithRoom | xrs/encoding.py:379-383 | With two free codes at every depth of the new path, every live encoded link stays encoded with both its codes. |
| AsLinkEncoding.Encoding.Refresh | xrs/encoding.py:402-457 | If more than half of the codes were in use, exactly half are afterwards; the lightest links went first; only the depths t - 1 and t changed; no AS changed its code; thresholds are taken from exactly the links that stayed. |
| AsLinkEncoding.RefreshUsesHalf | xrs/encoding.py:402-453 | Afterwards half of the codes of t are in use, or all that were if that is less, and only links that leave or enter t have gone. |
| AsLinkEncoding.RefreshDropsLightest | xrs/encoding.py:415-439 | A live link that went carries no more prefixes than one that stayed, and among equals of one depth comes first by its ASes. |
| AsLinkEncoding.RefreshTakesThresholds | xrs/encoding.py:441-457 | The threshold of a depth that still has links is the percentile of their numbers, each once; all others stay. |
| AsLinkEncoding.CalibratedPlain | xrs/encoding.py:297-300 | The threshold of a depth with encoded links is the percentile of their numbers, each once. |
| RefreshRun.ExhaustedMeansHalf | xrs/encoding.py:415-453 | When the lists are used up, half of the space is free even if the limit was never met on the way. |
| AsLinkEncoding.RefreshFreesHalf | xrs/encoding.py:396-457 | A full mapping has exactly half of its codes free after a refresh, so the insertion that asked for it finds one. |
| AsLinkEncoding.RoomAtBoth | xrs/encoding.py:323-327 | After the two refreshes both depths have a free code at once: the second does not undo the first. |
| FastReroute.AddAsPathEncoding | xrs/participant_swift.py:109-126 | The string built is the codes of the path in order of depth, padded on the right. |
| FastReroute.EncodedEndsHaveCodes | xrs/encoding.py:464-475 | Both ends of an encoded link own codes at its depths, so that the rule builder finds both fields; at depth 1 the far end alone counts. |
| FastReroute.BuildRule | xrs/participant_swift.py:412-428 | Pattern and mask of the rule for a link at a depth, field by field. |
| FastReroute.RulesOfFailedLink | xrs/participant_swift.py:400-431 | For a failed link, exactly one rule for each of its depths at which it is encoded. |
| FastReroute.PathVmacFields | xrs/participant_swift.py:109-126 | When the widths add up to max_bytes, short paths, long paths and depths without a mapping all leave every field at its place. |
| FastReroute.PathBits | xrs/participant_swift.py:109-126 | Bit by bit: behind the fields of the lesser depths comes the code of the AS at this depth, zeros if there is none or it has no code. |
| FastReroute.RuleBits | xrs/participant_swift.py:409-428 | Bit by bit: the codes of the link's ends at their depths and ones in the mask there, zeros everywhere else. |
| FastReroute.VmacAlignedIffBudgetSpent | xrs/participant_swift.py:109-126 | All paths get a string of the rule's length exactly if the widths add up to max_bytes. |
| FastReroute.FieldNamesAs | xrs/encoding.py:134-139 | A field shows the code of an encoded AS exactly if the path has that AS there: padding and unencoded ASes never do. |
| FastReroute.FieldsDecide | xrs/participant_swift.py:412-428 | The rule matches exactly if the two fields of the link agree. |
| FastReroute.FastRerouteMatchIsExact | xrs/participant_swift.py:409-431 | The rule for an encoded link at a depth matches the VMACs of exactly the paths that cross this link at this depth. |
| FastReroute.RulesOfOneDepthAreDisjoint | xrs/participant_swift.py:409-431 | The rules of two links encoded at one depth never match the same path. |
| OldVmacs.RuleOnOldVmac | xrs/participant_swift.py:409-431 | The current rule of an encoded link matches a VMAC made in an earlier state exactly if the VMAC shows the codes its ends own now. |
| OldVmacs.OldVmacIsExact | xrs/participant_swift.py:409-431 | If every AS of the path still owns the code it had, the rule matches the old VMAC exactly if the path crosses the link and its ends had codes when the VMAC was made. |
| OldVmacs.NearestLinkIff | xrs/participant_swift.py:409-431 | The rules of all links at depth 1 read an old VMAC right exactly if the AS it names there owns the same code or none, and no other AS owns that code. |
| OldVmacs.DeeperLinkIff | xrs/participant_swift.py:409-431 | The rules of all links encoded at a depth d >= 2 read an old VMAC right exactly if the link its path crosses there, if encoded, still has both the codes it names, and no other encoded link has them. |
| OldVmacs.ElementaryKeepsCode | xrs/encoding.py:318-457 | Nothing the encoder does at a time changes the code of an AS that owns one before and after. |
| OldVmacs.StepsKeepCodes | xrs/encoding.py:318-457 | An AS that owns a code in all states of a chain of steps owns the same one in the end. |
| OldVmacs.RunSteps | xrs/participant_swift.py:213-306 | Whatever messages a peer with an encoder hears, there is a chain of steps of this kind that leads through the states of the encoder before and after every message, in their order. |
| OldVmacs.OldVmacAfterRun | xrs/participant_swift.py:213-431 | For every run of messages: if any chain of steps through its states releases no code of a path, a VMAC handed out before the run is matched by exactly the rules of the links its path crosses, among those whose ends had codes then. |
| SwiftPeer.RIBPeer.Update | xrs/rib.py:11-18 | The path is stored and the previous one, or [], returned. |
| SwiftPeer.RIBPeer.Withdraw | xrs/rib.py:23-29 | The prefix goes and its path, or [], is returned. |
| SwiftPeer.BGPMessagesQueue.RefreshIter | xrs/bgp_messages.py:21-23 | What leaves the queue, in order, is older than its time; the first one left is not. |
| SwiftPeer.GraphIsContiguous | xrs/participant_swift.py:191-196 | A graph of whole paths has no gap between its depths, as the allocation of widths assumes. |
| SwiftPeer.ExchangeKeepsLive | xrs/participant_swift.py:230-240 | After graph and path have been exchanged, an encoded link is live or lies on the old path, and the links of the new path are live. |
| EncoderSteps.EncodesSomethingIff | xrs/encoding.py:205-304 | An encoder just computed encodes something exactly if the graph has a link at a handled depth and max_bytes is at least 6. |
| SwiftPeer.Peer.Announce | xrs/participant_swift.py:220-246 | Table, graph and encoder follow the announcement together; a missing encoder is computed exactly above the threshold, and then handles the depths in use, has taken up their links in turn and has their thresholds; an existing one gets the advertisement and keeps its widths; without one the route waits. |
| SwiftPeer.Peer.WithdrawPrefix | xrs/participant_swift.py:250-276 | Table, both graphs, queue and encoder follow the withdrawal together, the encoder being computed first, on the graph before the withdrawal, if there is none; only known paths enter the queue. |
| SwiftPeer.Peer.CatchUp | xrs/participant_swift.py:323-362 | The loop over the seconds of a burst terminates, keeps the withdrawal graph equal to queue plus burst, and ends the burst exactly if in some second fewer withdrawals were recent than the end threshold. |
| SwiftPeer.Peer.Replay | xrs/participant_swift.py:309-320 | Once there is an encoder the waiting routes get the VMACs of their paths and the list is emptied; it fails exactly if one of them is for the withdrawn prefix. |
| SwiftPeer.Peer.AddRealPrefix | xrs/burst.py:55-70 | The burst notes the withdrawn prefix; it fails exactly if it has to write down a path and there is none. |
| SwiftPeer.Peer.Advance | xrs/participant_swift.py:322-379 | After the passage of time a burst is on exactly if it was and no second ended it, or if the recent withdrawals reach the start threshold; a burst that goes on has taken exactly what expired meanwhile from the queue and has one prefix more, a new one starts empty. |
| SwiftPeer.Peer.HandleMessage | xrs/participant_swift.py:213-379 | Predictions apart, a message is survived exactly if no removal, no replay and no record fails; then every invariant holds again, table, waiting routes, history and burst are those the message calls for, the encoder has taken the step of the message (computed on the graph of the paths with its depths, turns and thresholds, or the advertisement's withdrawals and offers, or the withdrawal), and the field widths are frozen. |
| SwiftPeer.Peer.Run | xrs/participant_swift.py:213-379 | The same over every sequence of messages: it is survived exactly if each message is, the state is the fold of the messages, the encoder took the step of each message on the graphs of the paths known at the time, and no field of the VMAC ever moves. |
| SwiftPeer.Peer.WindowIsExact | xrs/participant_swift.py:322-369 | Between messages the queue is the end of the history of withdrawals of known paths: exactly those at most win_size old; all that a burst holds back is older. |
| SwiftPeer.Peer.WithdrawalGraphCounts | xrs/participant_swift.py:262-276 | Every depth counter of the withdrawal graph is the count over the recent withdrawals plus those the burst holds back. |
| SwiftPeer.Peer.GraphIsExact | xrs/participant_swift.py:156-240 | Between messages every counter of the main graph is the number of places in the current paths, and the threshold sets hold exactly the ASes that reach it. |
| SwiftPeer.Peer.PrefixesAreExact | xrs/as_topology.py:45-73 | Unless the peer is silent, the prefixes of a link are exactly those whose current path crosses it. |
| EncoderSteps.GraphPlain | xrs/as_topology.py:38-43 | A link is in the graph at a depth exactly if a prefix has it there in its path, and its number is that of these prefixes. |
| PeerRun.TableAfter | xrs/participant_swift.py:213-320 | After a message the table has the announced path and not the withdrawn prefix; there is an encoder if there was one, if the message withdraws, or if the announcement takes the table above the threshold; until then announced routes wait. |
| PeerRun.HistoryGrows | xrs/participant_swift.py:262-271 | The path a withdrawal adds to the history is the one just announced or the known one, with the time of the message; an unknown or empty one adds nothing. |
| PeerRun.GoesOnIff | xrs/participant_swift.py:323-334 | A burst goes on exactly if in every second since the last message at least the end threshold of withdrawals are at most win_size old. |
| PeerRun.BurstPlain | xrs/participant_swift.py:322-379 | One that goes on has taken from the queue exactly what became older than win_size meanwhile and knows one prefix more; otherwise a new one starts exactly if at least the start threshold of withdrawals are at most win_size old. |
| PeerRun.SurvivesPlain | xrs/participant_swift.py:213-379 | In terms of paths and prefixes: when a message ends the process. |
| PeerRun.WindowAdvances | xrs/bgp_messages.py:21-23 | Popping the expired front of an ordered window leaves exactly what has not expired. |
| PeerRun.LapsedIsDeleted | xrs/participant_swift.py:323-362 | What a burst takes from the queue while it goes on is exactly what expires between the two times. |
| SwiftPeer.Peer.RulesAreExact | xrs/participant_swift.py:409-431 | In every state a run can reach, the rule of an encoded link matches exactly the paths that cross it. |
| PeerRun.RunSurvivesIff | xrs/participant_swift.py:213-379 | A peer that is silent, or hears clean paths and withdrawals with a path, survives a run exactly if the message with which its encoder appears does not withdraw a waiting route. |
| PeerRun.EncodedPeerSurvives | xrs/participant_swift.py:213-379 | With an encoder, such a peer survives every run. |
| PeerRun.AnnounceThenWithdrawFails | xrs/participant_swift.py:309-316 | Announcing a prefix below the threshold and withdrawing it ends the process, silent or not. |
| PeerRun.UnknownWithdrawalFails | xrs/burst.py:55-63 | Withdrawing an unknown prefix during a burst ends a process that is not silent. |
| PeerRun.PrependedPathFails | xrs/as_topology.py:71-73 | With an encoder in place, announcing a path with an AS three times and withdrawing it ends the process exactly if it is not silent. |
| Bpa.FindBestFmscoreSingle | xrs/bpa.py:50-84 | The best score of a single link out of a node at the threshold, with the link and its numbers, or nothing. |
| Bpa.BestSinglePlain | xrs/bpa.py:50-84 | The numbers are the withdrawn and the current paths that cross the link and the withdrawals that are left, the score is that of these numbers, and no link out of a node at the threshold scores higher. |
| Bpa.FindBestFmscoreForward | xrs/bpa.py:93-156 | Each node's choice is a greedy prefix of its links along which the score strictly rises; the result is the best of them, the union of all that reach it, with -1 for the numbers on a tie; no single link scores higher. |
| Bpa.GreedyPlain | xrs/bpa.py:101-137 | A node takes the links out of it that withdrawn paths cross in the order of their own scores, as long as each makes the score of the summed numbers rise strictly. |
| Bpa.BestOfPlain | xrs/bpa.py:139-156 | The only best choice with its numbers, or on a tie the links of all best choices with -1 for each number. |
| Bpa.GreedyBeatsSingles | xrs/bpa.py:105-141 | A node's greedy choice scores at least as high as each of its links alone, and its true positives and false negatives add up to the withdrawals. |
| Bpa.ForwardDominatesSingle | xrs/bpa.py:50-156 | On the same graphs the inferred set never scores lower than the best single link. |
| Bpa.NumbersAddUp | xrs/bpa.py:143-156 | TP + FN is the number of withdrawals, unless the tie mark -1 or the initial zeros come back. |
| Bpa.SomeLinkIsInferred | xrs/bpa.py:101-156 | On a graph of withdrawals, links are inferred exactly if some node is at the threshold. |
| SupersetLib.CeilLog2Exact | pctrl/ss_lib.py:24-26 | The logarithm is the least width that numbers so many sets. |
| SupersetLib.PowerOfTwoTest | pctrl/ss_lib.py:71-73 | The bit test recognises exactly the powers of two. |
| SupersetLib.IdBitsAfterMerge | pctrl/ss_lib.py:71-73 | The identifier loses a bit with a merge exactly when the test says so, for two or more remaining sets. |
| SupersetLib.RulesRequired | pctrl/ss_lib.py:33-43 | The total rule count over all members of all sets. |
| SupersetLib.RulesAddUp | pctrl/ss_lib.py:39-43 | Every member adds the number of rules the dictionary has for it. |
| SupersetLib.EightRules | pctrl/ss_lib.py:33-43 | Two groups that require eight rules. |
| SupersetLib.SortIsStable | pctrl/ss_lib.py:53-55 | Groups of equal size keep their order. |
| SupersetLib.CanMergeIff | pctrl/ss_lib.py:69-91 | Two different groups may be merged exactly if the bits required afterwards, but for the one a single remaining group takes, are within the limit. |
| SupersetLib.MergeTotal | pctrl/ss_lib.py:94-109 | A merge lowers the rules required by exactly its impact. |
| SupersetLib.MergeBits | pctrl/ss_lib.py:69-91 | The bits after a merge are the predicted ones, and one more when a single set is left. |
| SupersetLib.LastMergeMayExceed | pctrl/ss_lib.py:69-91 | A merge that fits three bits and ends with four. |
| SupersetLib.BestPair | pctrl/ss_lib.py:77-102 | The first pair of the greatest impact among those that fit, none only at a local optimum. |
| SupersetLib.BestPairPlain | pctrl/ss_lib.py:77-102 | No pair that may be merged shares members with more rules, and none before it with as many. |
| SupersetLib.LocalOptimumPlain | pctrl/ss_lib.py:77-106 | The merging stops exactly when no two groups that may be merged share a member with rules. |
| SupersetLib.GreedyStepFacts | pctrl/ss_lib.py:66-111 | One merge loses no coverage and no member, saves rules, and meets the bit bound. |
| SupersetLib.GreedyRunFacts | pctrl/ss_lib.py:66-111 | So does every run of merges, with one rule saved per merge at least. |
| SupersetLib.MinimizeSsRulesGreedy | pctrl/ss_lib.py:47-113 | From the sets sorted by size, merges of the best pair until no pair that fits shares a rule; every input set lies in an output set, the union is the same, and any merge leaves the bits within the limit (plus one for a single set). |
| SupersetLib.RemoveSubsets | pctrl/ss_lib.py:154-172 | Exactly the maximal sets, each once, largest first. |
| SupersetLib.BestSsToExpandGreedy | pctrl/ss_lib.py:115-140 | The first superset that fits the mask at the least added cost, -1 exactly if none fits. |
| SupersetLib.CheapestPlain | pctrl/ss_lib.py:126-140 | No superset that fits the mask gains members with fewer rules, and none before it with as few. |
| SupersetLib.CheaperIsChosen | pctrl/ss_lib.py:126-140 | A superset that gains a member with one rule is chosen over one that gains a member with ten. |
| SupersetLib.IsSubsetOfSuperset | pctrl/ss_lib.py:146-150 | Whether some superset holds the set. |
| Supersets.RecomputeRulecounts | pctrl/supersets.py:57-73 | The participants policies forward to, each with its number of policies. |
| Supersets.ForwardingCount | pctrl/supersets.py:57-73 | The count of a participant is the number of policies that forward to it. |
| Supersets.TruncateFacts | pctrl/supersets.py:194-199 | Truncation loses a member exactly if the superset is longer than the mask, also for a negative mask size. |
| Supersets.TruncatedIsFront | pctrl/supersets.py:194-199 | The first members stay, as many as the mask has bits; a negative size drops so many at the end. |
| Supersets.NoTruncationIffBitsFit | pctrl/supersets.py:186-199 | The truncation branch is not taken exactly if the minimised sets fit max_bits. |
| Supersets.CoveredIsPlaced | pctrl/supersets.py:170-199 | Without truncation every prefix's active advertisers lie inside one superset. |
| Supersets.RoomToSpare | pctrl/supersets.py:25-26 | After a run of merges, or if the sets fitted before it, the sets at its end fit max_bits. |
| Supersets.PlacedIffRoom | pctrl/supersets.py:170-202 | After a recomputation every group is inside a superset exactly if the maximal groups fit all bits, or two of them can be merged, or nobody is active. |
| Supersets.MergedIff | pctrl/supersets.py:182-183 | A run of merges merges something exactly if its input is no local optimum. |
| Supersets.CutGroupIsLost | pctrl/supersets.py:194-199 | Without a merge, if the maximal groups exceed the bits, one of them is cut and inside no superset. |
| Supersets.SuperSets.RecomputeAllSupersets | pctrl/supersets.py:170-202 | The sizes add up to max_bits, identifiers fit their field, supersets order the minimised sets, which are a local optimum with no more rules than the maximal sets; merges happened exactly if the maximal sets were no local optimum, and every prefix's active advertisers lie inside one superset exactly if those sets fit, could be merged, or are empty. |
| Supersets.SuperSets.InitialComputation | pctrl/supersets.py:38-54 | Exactly one rule for every position of every superset. |
| Supersets.NamesPlain | pctrl/supersets.py:43-49 | A change for every participant at its place in its superset, each once, and none besides. |
| Supersets.SuperSets.UpdateSupersets | pctrl/supersets.py:76-167 | Nothing changes for a known set; otherwise the cheapest superset that can takes in the new set at its end, and exactly the new positions are reported; a recomputation happens exactly if there is no superset yet or none can take the set, leaves what recomputing promises, and reports the first superset. |
| Supersets.NoneCanTakePlain | pctrl/ss_lib.py:126-140 | None can take the group if every superset lacks a member of it and would be longer than the mask with all of them. |
| Supersets.SuperSets.UpdateAll | pctrl/supersets.py:76-167 | Every update takes the supersets one such step further, and the advertisers of an announced prefix are inside a superset at the end if every recomputation since knew of them and had room. |
| Supersets.StaysPlaced | pctrl/supersets.py:76-167 | Over any run of such steps, an announced group stays inside a superset up to any update, if the recomputations on the way know of it and have room, whatever else is expanded. |
| Supersets.SuperSets.Expand | pctrl/supersets.py:149-165 | Old positions keep their meaning, no participant appears twice, and the changes are exactly the positions that are new. |
| Supersets.ExpansionKeepsPlaces | pctrl/supersets.py:154-157 | What was inside a superset stays inside it after an expansion, at the same positions. |
| Supersets.FirstSupersetOnly | pctrl/supersets.py:142-147 | The rules of a recomputation are complete exactly if all supersets but the first are empty. |
| FastReroutePolicy.ReachabilityDecode | pctrl/ss_lib.py:194-227 | The rule of position k in superset s matches exactly if the VMAC was made for s and the participant at k advertises and is exported to, and the rule does not look for a missing inbound bit. |
| FastReroutePolicy.VmacReachability | pctrl/supersets.py:251-322 | The same for whole VMACs as `get_vmac` builds them. |
| FastReroutePolicy.VmacPlain | pctrl/supersets.py:251-322 | The VMAC bit by bit: a one, the number of the superset, a bit for every place whose participant is in the set and exported to, the number of the next hop, the backups, the path, zeros. |
| FastReroutePolicy.MissingParts | pctrl/supersets.py:287-295 | Twelve zeros stand for backups or a path that the class has not got. |
| FastReroutePolicy.OnePositionMatches | pctrl/ss_lib.py:194-227 | A participant is matched at one position at most. |
| FastReroutePolicy.NextHopDecides | pctrl/ss_lib.py:259-294 | The next-hop part of a rule matches exactly the VMACs that lead to the peer. |
| FastReroutePolicy.TagsAfterFacts | pctrl/supersets.py:296-307 | Tags are handed out in order, never changed, never shared. |
| FastReroutePolicy.TagsFitIff | pctrl/BEC.py:167-170 | All tags fit n bits exactly while fewer than 2^n are handed out. |
| FastReroutePolicy.SecondTagOverflows | pctrl/BEC.py:167-170 | With one bit, the second tag needs two. |
| FastReroutePolicy.BackupsInPlaceIff | pctrl/supersets.py:296-307 | Every backup is at the place of its depth exactly if no missing one follows a present one. |
| FastReroutePolicy.BackupsPlain | pctrl/supersets.py:296-312 | Bit by bit, the field of a depth holds the tag of its backup in binary, zeros if it has none. |
| FastReroutePolicy.PresentBeforeMissingMoves | pctrl/supersets.py:296-307 | The tag of a backup at depth 1, with none at depth 2, ends up at depth 2. |
| FastReroutePolicy.BackupDecides | pctrl/participant_controller.py:306-320 | The backup part of a rule matches exactly if the backup at this depth is this one, or there is no field for the depth. |
| FastReroutePolicy.BackupsToldApartIff | pctrl/participant_controller.py:306-320 | The rules of two backups tell all VMACs apart exactly at the depths from 1 to max_depth. |
| FastReroutePolicy.RerouteRuleIsExact | pctrl/participant_controller.py:300-337 | A fast-reroute rule of any depth matches a VMAC exactly if its next hop is the peer, its backup at the depth, if it has a field, is that of the rule, and its path carries the codes. |
| FastReroutePolicy.OneBackupMatches | pctrl/participant_controller.py:308-337 | At a depth from 1 to max_depth, the rules of two backups never match the same VMAC. |
| FastReroutePolicy.AllBackupsMatch | pctrl/participant_controller.py:306-337 | At depth max_depth + 1, the rules of all backups match the same VMACs: those whose next hop and path fit. |
| FastReroutePolicy.SizesMustAddUp | pctrl/participant_controller.py:326-330 | For sizes up to 48 bits, all rules of a depth match exactly the VMACs they are meant for if and only if the sizes add up to 48. |
| FastReroutePolicy.RerouteReachesBackup | pctrl/participant_controller.py:342-344 | The address a rerouted packet gets is matched by the next-hop rule of its backup and of nobody else. |
| FastReroutePolicy.NextHopMacPlain | pctrl/ss_lib.py:244-256 | Bit by bit: the inbound bit, the number of the participant at the end of the superset part, zeros. |
| FastReroutePolicy.ParticipantController.GetVmac | pctrl/supersets.py:206-332 | The VMAC of the first superset that holds the active advertisers, none exactly if there is no such superset; new backups get the next tags. |
| FastReroutePolicy.ParticipantController.MadeForHome | pctrl/supersets.py:242-263 | The VMAC is for the first superset with all advertisers some policy forwards to, and its bit for a place is set exactly if the participant there is one of them and exported to. |
| FastReroutePolicy.HomelessPlain | pctrl/supersets.py:242-253 | Without a VMAC every superset lacks an advertiser some policy forwards to. |
| FastReroutePolicy.ParticipantController.ProcessFR | pctrl/participant_controller.py:300-359 | One rule per tagged participant other than the peer and per port, nothing beyond max_depth + 1; every rule matches the source address of a port, and every such participant has one for every port. |
| EndToEnd.FailureIsReroutedExactly | pctrl/participant_controller.py:300-337 | For every reachable encoder state: the rule for a failed link catches exactly the VMACs with that next hop, that backup at the depth, if there is a field for it, and a path across the link at the depth. |
| EndToEnd.PacketsAreCaught | pctrl/participant_controller.py:300-359 | With the sizes a recomputation leaves, a packet is caught by a rule queued for a failed link exactly if it comes from a port of the participant, its next hop leads to the peer, its path crosses the link, and a tagged participant other than the peer is its backup for this depth. |
| EndToEnd.PacketsReachBackup | pctrl/participant_controller.py:342-344 | At a depth with a field for it, a caught packet leaves with the inbound bit set and an address that the next-hop rule of its backup and of nobody else matches. |
| RouteRank.CmpIsBetter | pctrl/bgp_route.py:13-48 | Where MEDs agree with neighbours, the comparison is the order by path length, then neighbour. |
| RouteRank.CmpPlain | pctrl/bgp_route.py:13-48 | The shorter path wins; then, through one first AS, the higher MED; then the lower neighbour. |
| RouteRank.OrderedIffMedAgrees | pctrl/bgp_route.py:35-40 | Two routes through one AS are never part of a circle with a third exactly if their MEDs agree with their neighbours. |
| RouteRank.ComparisonCanCycle | pctrl/bgp_route.py:13-48 | Three routes, each better than the next, all around. |
| RouteRank.BestRoute | pctrl/peer.py:96-98 | The head of the sorted routes is a route no other is better than. |
| RibTable.Table.Add | pctrl/rib.py:46-104 | The table holds the entry under its primary key instead of what was there; all indexes agree with the entries; the number is new. |
| RibTable.Table.GetAll | pctrl/rib.py:106-156 | Exactly the routes that fit the key, each once, whatever index serves it. |
| RibTable.CarriesPlain | pctrl/rib.py:106-140 | A route fits a key if it has the value for each of the eight attributes the key names. |
| RibTable.Table.GetOne | pctrl/rib.py:106-156 | Some route that fits the key, none exactly if there is none. |
| RibTable.Table.Delete | pctrl/rib.py:158-226 | Exactly the routes that fit the key go, from the entries and from all indexes; only an unknown primary key is an error. |
| RibTable.IndexAdds | pctrl/rib.py:74-102 | A reference to a new entry keeps a secondary index exact. |
| RibTable.IndexRemoves | pctrl/rib.py:196-226 | The reference to remove is there, and taking it out keeps the index exact. |
| BgpPeer.DecisionIsRightIff | pctrl/peer.py:80-104 | The incremental choice after an announcement ranks as what a full decision gives, exactly unless the current best has no encoded path and the announcement is of the misleading kind. |
| BgpPeer.WorseRouteIsTaken | pctrl/peer.py:80-104 | The best route, without an encoded path, gives way to a longer one with an encoded path, and the rank is wrong. |
| BgpPeer.DecisionIsFullIff | pctrl/peer.py:80-104 | From the full choice, an announcement leads to the full choice exactly if it neither misleads nor replaces the best route by another one that compares as equal. |
| BgpPeer.RunIsFullIff | pctrl/peer.py:42-124 | Over every run of updates with non-empty encoded paths and equal MEDs, the local route of a prefix is the full choice all the way exactly if no announcement is overlooked when it arrives. |
| BgpPeer.TieIsOverlooked | pctrl/peer.py:80-104 | After such a replacement the local route is the old one, while the announced one is the full choice. |
| BgpPeer.FullChoiceIff | pctrl/peer.py:93-98 | With one route per neighbour there is one full choice, and a local route is it exactly if it ranks as it and is offered. |
| BgpPeer.CoherentIsMaximal | pctrl/peer.py:80-104 | No input route ranks above a coherent local route under the comparison, and those of other neighbours rank strictly below. |
| BgpPeer.OthersWithdrawal | pctrl/peer.py:111-122 | A withdrawal by another neighbour leaves the rank right. |
| BgpPeer.BGPPeer.Update | pctrl/peer.py:42-54 | The input table gains, replaces or loses exactly the neighbour's route. |
| BgpPeer.InputPlain | pctrl/peer.py:42-54 | An announcement takes the place of the neighbour's route to the prefix, a withdrawal takes this route out; all other routes stay. |
| BgpPeer.RoutesPlain | pctrl/peer.py:64-96 | The routes to a prefix are those of the table with this prefix, and the local route is the one of the local table. |
| BgpPeer.DecidePlain | pctrl/peer.py:80-104 | When an announcement is taken over, when it starts the decision over, and that it has no effect otherwise. |
| BgpPeer.BGPPeer.DecisionProcess | pctrl/peer.py:56-124 | After every update that can be decided, the local route of every prefix ranks as a full decision would; the updated prefix keeps its route, takes the announced one or gets the maximum of the input routes as the branches say, and no other changes. |
| BgpPeer.BGPPeer.Run | pctrl/peer.py:42-124 | Over every run of updates with non-empty encoded paths and equal MEDs, the local routes rank as full decisions and are the fold of the decisions; they are the full choices if no neighbour has two routes for a prefix that compare as equal. |
| Fec.FEC.GetAllParticipantsAdvertising | pctrl/FEC.py:97-113 | Exactly the participants behind the next hops of the routes of the input table to the prefix. |
| Fec.FEC.Assignment | pctrl/FEC.py:18-67 | The prefix gets the class of its next hop and advertisers, an old one or a new one with a new number; other prefixes keep theirs; it fails exactly if nobody is known behind the next hop of the local route. |
| Fec.FEC.ProcessUpdate | pctrl/participant_controller.py:518-528 | After every update that does not fail for an unknown next hop of the new best route, exactly the prefixes with a local route have a class, and it is the one of their next hop and advertisers. |
| Fec.FEC.ShareIffAlike | pctrl/FEC.py:18-67 | Two prefixes share a class exactly if next-hop participant and advertisers agree. |

## Left out

- Sockets, threads, locks, logging, files, the flow-rule back ends and the visualisation: no logic of their own.
- `refresh` with `opti_bits` on, `find_best_fmscore_backward` and `find_best_fmscore_naive`: variants of what is modelled, with the same loops.
- The numeric value of the Fowlkes-Mallows score, which is a float expression of logarithms.
- Which bursts trigger a prediction, and the files a prediction writes.
- What a peer sends on to the route server.
- Predictions that raise an error, at the end of a burst or during it: a run is taken up to there.
- `prefix_is_encoded` and the predicted prefixes of a burst.
- `BEC.assignment`: its new classes go into the wrong list, so that their numbers repeat; a backup class is an input here.
- That `get_vmac` shrinks the advertiser set of the class it reads; the classes' keys are kept apart from it.
- VMACs longer than 48 bits, which the program logs as an error, and the hexadecimal text of a MAC address.
- `update_outbound_rules`, which shares one match record between its rules.
- The routes a participant announces to its own routers, and the output table.
- AsLinkEncoding.Encoding.ComputeEncoding: asks for a graph without gaps between depths, which GraphIsContiguous proves of every graph a run can build.
- SupersetLib.MinimizeSsRulesGreedy: asks for a rule count of every member, without which the program raises a KeyError; its only caller removes the others first.
- FastReroutePolicy.SizesMustAddUp: speaks of sizes up to 48 bits; longer VMACs and rules are cut by the conversion to text, which is not modelled.
- BgpPeer.BGPPeer.DecisionProcess: asks for routes whose MEDs agree with their neighbours, because the comparison is no order otherwise, for non-empty paths, because the comparison looks at their first AS, and for announcements that do not mislead, which DecisionIsRightIff shows to be exactly those it gets right.
