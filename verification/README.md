# Verification of the exnode agent's reconcilers

This project models the part of the exnode agent that brings a host to the state its panel asks for,
and proves what whole runs of that machinery guarantee. The agent never holds the kernel's state. It
remembers what it applied last and issues small steps (`iptables -C/-A/-D`, `ip rule add/del`, `ip route
replace/del`, link and peer changes) to reach the next configuration. The question throughout is
whether, after any sequence of configurations, the host equals what it came with plus exactly one copy
of everything the newest configuration wants.

The host is the class `Host.Kernel`: a multiset of firewall rules, a multiset of `ip` entries, a routing
table, overlay links and WireGuard devices, with one method for each command the agent runs. The
reconcilers are methods with loops over it, the engines and the controller are classes with the fields
of the original. Each method is proved against a function or relation on the state, and the laws
are proved about those.

Central idea: a reconciler treats the copies of one rule or entry the same way everywhere. It deletes
some (`drops`) and then, when the configuration lists the key, makes sure one is there (`wants`). A pass
over many interfaces is a sequence of such touches of each key (`Counts.Fold`), and a run of the agent is a
longer sequence. Presence after a run is then a statement about who touched the key last.

A second idea keeps the first one honest. What the configuration *means* is written down once more, field by field
and word by word, without the functions the reconcilers compute with, and the two are proved to agree: when NAT is
on, which subnets a text names, who owns an allowed IP, which link can be built, what a pasted command says.
`SyncMeaning.FirstSync` puts it all together for the first sync of an agent.

| file | what it holds |
|---|---|
| `Text`, `Counts`, `Host`, `Types` | Go's string helpers with their round trips, copy arithmetic, the host, the desired state |
| `Nat`, `Policy`, `ExtrasParser`, `ExtrasReconcile` | NAT rules, policy routes, custom routes, rules and NAT lines |
| `WgDevice`, `KernelEngine` | peer delta of one device, the kernel engine |
| `OverlayLink`, `OverlayFirewall`, `Overlay`, `OverlayConvergence` | recognising an existing link, its firewall rules, one pass, what a pass achieves |
| `Meaning`, `CustomMeaning`, `PeerMeaning`, `LinkMeaning`, `BoxMeaning` | what NAT fields and policy lines, custom lines, peers, overlay links and the sing-box configuration mean |
| `SyncEffects`, `Controller`, `SyncMeaning` | one sync and one watchdog tick, the agent, what a response means for the host |
| `RuleRuns`, `RuleTheorems`, `EntryRuns`, `OverlayRuns`, `RouteRuns`, `DeviceRuns`, `NodeRun` | whole runs, seen by rules, entries, links, routes and devices, and the loop that produces them |
| `Protocol` | heartbeats, fetches and edits of the panel, with failures |
| `SingBox`, `BoxLoop` | the sing-box process, and the heartbeats that drive it |
| `Version`, `Upgrade` | version order, self-upgrade cooldown |

Assumptions: commands succeed when the object they name allows it (a reliable host); `ip` and `iptables`
match objects by exact key; parsing of addresses and keys, the default egress device and address owners
(`Host.Net`) do not change during a run; `iptables -S` and `ip -d link show` print what `Host.RuleLine` and
`OverlayLink.Show` render; `ip -4 addr show` lists each address as the word `Host.LinkView.inet` gives for it,
or not at all, and no other word of its output is an address; deleting an overlay link takes along the routes
that name it with `dev`, while a route that only names a gateway stays, also one the kernel had resolved over
that link, and deleting a WireGuard device takes no route along.

## Where the code stops short of its own description

Each of these is a theorem with the exact condition, not a remark.

- Removing an interface tears down the rules computed for it whether or not NAT was on for it, so an equal
  rule of the operator goes with it (`RuleTheorems.RemovalTakesOperatorRuleIff`).
- Custom NAT lines, ip rules and routes of an interface that vanishes from the configuration stay on the host
  (`RuleTheorems.VanishedRuleStaysIff`, `EntryRuns.VanishedEntryStaysIff`, `RouteRuns.VanishedRouteStaysIff`).
  For any run, what is left this way is exactly what the newest configuration neither asks for nor drops
  (`RuleTheorems.TickedExactIff`, `EntryRuns.TickedEntriesExactIff`, `RouteRuns.UnlistedRouteExactIff`), and it
  stays until a sync drops it (`RuleTheorems.LeftoverLastsIff`, `EntryRuns.LeftoverEntryLastsIff`,
  `RouteRuns.LeftoverRouteLastsIff`).
- After a sync whose engine failed, the custom entries on the host and in memory are the new ones, while the watchdog
  still restores the recorded, older state: the next tick brings back what the failed sync dropped, and a
  destination listed in both leaves the old way again. What came back stays under the next sync too, even a
  successful one that does not ask for it, unless an interface that sync desires is remembered to have
  listed it (`RuleTheorems.FailedSyncOutcome`, `EntryRuns.FailedSyncEntryOutcome`,
  `RouteRuns.FailedSyncRouteOutcome`, `RouteRuns.ListedRoutePlaced`). Without failures and with the kernel
  engine nothing escapes the memory this way (`RuleRuns.KernelRunsTrack`, `EntryRuns.KernelRunsTrackEntries`,
  `RouteRuns.KernelRunsTrackRoutes`).
- NAT switched off under sing-box leaves its rules on the host (`RuleTheorems.SingBoxLeavesNat`).
- A dropped custom NAT line that spells a NAT rule deletes that rule, and the sync does not put it back unless a
  later interface lists the line (`RuleTheorems.NatPresentIff`). The same happens to a custom
  line or rule that an earlier interface lists and a later one just dropped (`RuleTheorems.CustomExact`,
  `EntryRuns.CustomEntriesExact`, `RouteRuns.CustomRoutePlacedIff`).
- Two interfaces of one name leave the rules of the first behind for good, except those the second computes too
  (`RuleTheorems.DuplicateNamesLeakIff`).
- Adding or dropping an explicit `table main` in a custom route deletes the route just installed; the next
  pass restores it (`ExtrasReconcile.WantedRouteOutcome`, `ExtrasReconcile.RespelledRouteHeals`).
- A peer whose key the panel spells differently from the kernel comes and goes with every sync
  (`WgDevice.MisspelledKeyFlaps`, `WgDevice.ExactPeersIff`).
- An existing overlay link is accepted when its address, device, port or key merely starts with the wanted
  one (`OverlayLink.MatchesIff`).
- An address the kernel lists otherwise than it is written (an IPv6 one, or one without a prefix length) is
  flushed and added again by every pass, and two links that send one destination different ways flip its route
  (`OverlayConvergence.UnchangedIsQuietIff`, `OverlayConvergence.AddressListedIff`); two custom routes that do so
  flip it with every watchdog tick (`RouteRuns.QuietTickIff`).
- A route that one edit moves from a surviving overlay link to the custom routes is missing after a successful sync:
  its second overlay pass still takes the route for one the link dropped, and deletes what the custom pass has
  just installed (`RouteRuns.MovedRouteIsLost`, `RouteRuns.CustomRoutePlacedIff`). The next tick restores it
  (`RouteRuns.ListedRoutePlaced`).
- The rules that let the tunnel protocols in stay for good once a link needed them, whatever links are removed
  (`OverlayRuns.ProtocolRulesAlongRun`).
- A crashed sing-box stays dead until the panel is edited, since a heartbeat that sees the recorded revision does not
  sync, and even then when the crash went unnoticed and the edit changes nothing that is rendered
  (`BoxLoop.CrashStaysUntilEdit`).
- Policy texts that come to mention an entry the operator installed and then drop it cost the operator that copy
  (`Policy.PolicyPathIndependence`, `Policy.ChainThenRemoveRestores`).
- A link route that uses the device of another link is lost when that link is rebuilt later in the same pass; the
  second pass of the sync puts it back (`OverlayConvergence.RoutesConverge`,
  `OverlayConvergence.SecondPassChangesNothingIff`, `RouteRuns.SyncSecondPassIff`, `OverlayRuns.RoutePlaced`).
- An ip rule that its presence test does not see gets one more copy with every watchdog tick (`ExtrasReconcile.Ensure`
  states presence for such a test and exact copies for an accurate one).
- Rules of a removed overlay link with more than eight copies survive the first pass
  (`OverlayConvergence.SecondPassRulesIff`).
- A change of NAT, policy or custom lines alone does not reach the sing-box engine (`SingBox.ChangeIgnoredIff`).
- A panel revision used twice hides an edit (`Protocol.EditReachesAgentIff`), and rolling the revision back
  after a failed sync leaves the links of the failed snapshot in place (`Protocol.LinksReachAgentIff`).
- Two upgrade orders in turn defeat the cooldown (`Upgrade.FlippingDefeatsCooldown`; `Upgrade.NextAttemptIff` says
  when a call attempts); version parts from
  2^63 on wrap around (`Version.PartsComeBackIff`) and prerelease suffixes are not read (`Version.SuffixIgnored`).

## Model

| member | source | states |
|---|---|---|
| Counts.FoldPresence | wg/nat.go:68-78 | starting from at most one copy, a key is present after any sequence of reconciling touches exactly when the last touch with an effect wants it |
| Counts.FoldAtMostOne | wg/nat.go:226-238 | no sequence of guarded adds and deletes ever makes a second copy |
| Text.JoinInjective | extras/extras.go:169 | two argvs of plain words with the same joined text are the same argv: the text key of the diff engines is sound |
| Text.TrimSpaceIs | extras/extras.go:33-43 | trimming takes white space off both ends, all of it and nothing else |
| Text.SpacesAre | extras/extras.go:33-43 | white space by code point: the ASCII blanks and the Unicode separators |
| Text.KeptPicks | extras/extras.go:33-43 | the lines that are read are those with a word that does not start with a comment sign, all of them, in order |
| Nat.NatSources | wg/nat.go:83-108 | the masqueraded subnets: the listed ones, each once, or the tunnel's own; None exactly when one does not parse |
| Nat.SetupNat | wg/nat.go:151-169 | every rule computed for the interface gets one copy if it had none, nothing else changes; succeeds exactly when sources and egress resolve |
| Nat.TeardownNat | wg/nat.go:173-189 | exactly one copy of each rule computed for the interface goes, nothing else |
| Nat.ReconcileNat | wg/nat.go:68-78 | the copies of every rule after a change of parameters, in terms of the old and the new configuration, spelled out by `Meaning.NatChanged` |
| Nat.NatRulesOwned | wg/nat.go:27-43 | the computed rule list holds each rule the interface owns exactly once and nothing else |
| Nat.DroppedRuleIsTorn | wg/nat.go:55-78 | a rule wanted before and not now is always deleted: no change of parameters leaves one behind |
| Meaning.NatAskedIff | wg/nat.go:27-52 | the rules wanted of an interface, in full: asked for exactly when the switch is on, or an egress or subnets are written down; then one forward rule each way through the egress and one rule for each listed subnet, or the tunnel's, masquerading or translating to the written address |
| Meaning.NatFromNothing | wg/nat.go:68-78 | NAT of an interface that was never applied: a rule is there exactly when the interface asks for it or it was there before |
| Meaning.NatChanged | wg/nat.go:55-78 | any change of one interface: what the new fields ask for is there once, what only the old ones asked for is gone, nothing else moves |
| Meaning.NatSwitchedOff | wg/nat.go:48-78 | with switch, egress and subnets all off none of its rules is left |
| Meaning.NatUnchanged | wg/nat.go:55-63 | unchanged fields delete nothing |
| Policy.ReconcilePolicyRoutes | wg/policy.go:197-221 | copies of every entry and FORWARD rule after replacing one policy text by another |
| Policy.EnsurePolicyRoutes | wg/policy.go:174-192 | the watchdog restores every missing entry and rule when its presence test claims nothing that is gone, and disturbs nothing when the test is accurate |
| Policy.RemovePolicyRoutes | wg/policy.go:109-116 | one copy per line and per FORWARD rule goes |
| Policy.DroppedEntryIsDeleted | wg/policy.go:197-221 | although lines are compared as text, an entry the new text lost is deleted and one neither text mentions is left alone |
| Meaning.OpensIff | wg/policy.go:61-87 | a text opens the firewall for exactly the words that follow a "from" on a line that is meant, and for the answers |
| Meaning.InstallsIff | wg/policy.go:17-47 | a text is about exactly the `ip` commands of its lines, their first add or del word read as add |
| Meaning.PolicyApplied | wg/policy.go:90-106 | on a host without them, a FORWARD rule or entry is there after applying a text exactly when the text opens or installs it |
| Meaning.PolicyChanged | wg/policy.go:197-221 | replacing a text: what the new one opens or installs is there, what only the old one did is gone, nothing else moves |
| Meaning.PolicyRemoved | wg/policy.go:109-116 | removing a text takes what it opens and installs, and nothing else |
| Policy.PolicyPathIndependence | wg/policy.go:197-221 | any chain of texts ends in the host's own entries plus one copy of each entry of the last text, exactly for the entries the host had none of or no text of the chain mentions |
| Policy.ForwardPathIndependence | wg/policy.go:197-221 | the same for the FORWARD rules of the chain |
| Policy.ChainThenRemoveRestores | wg/policy.go:109-116 | removing the last text of any chain restores entries and rules to what they were before the first, exactly for those the host had none of or no text mentions |
| Policy.ApplyThenRemoveRestoresIff | wg/policy.go:90-116 | applying and removing a text restores an entry's count exactly when the text does not mention it or the host did not have it |
| ExtrasParser.ParseRouteLine | extras/extras.go:59-76 | accepts exactly `<cidr> via <gateway> [table <n>]` after prefix stripping, and returns its argv |
| ExtrasParser.ParseRuleLine | extras/extras.go:80-113 | accepts exactly keyword/value pairs, `from` first, one of them `lookup` |
| ExtrasParser.ParseNatLine | extras/extras.go:118-151 | accepts exactly allowed option/value pairs with MASQUERADE or SNAT targets |
| ExtrasParser.RouteRoundTrip | extras/extras.go:48-76 | printing an accepted route and parsing it again gives the same words |
| ExtrasParser.RuleRoundTrip | extras/extras.go:80-113 | the same for ip rules |
| ExtrasParser.NatRoundTrip | extras/extras.go:118-151 | the same for NAT lines |
| CustomMeaning.RouteSentenceIff | extras/extras.go:48-76 | the words of a route line: the longest pasted command it starts with is taken off, the rest is `<dst> via <gateway>` with or without a table |
| CustomMeaning.RuleSentenceIff | extras/extras.go:80-113 | the same for `ip` rules, with the keywords spelled out |
| CustomMeaning.NatSentenceIff | extras/extras.go:118-151 | the same for NAT lines, with the options and the letters of the two targets, small or capital, spelled out |
| ExtrasReconcile.Reconcile | extras/extras.go:358-362 | routes, entries and rules after one pass over the custom lines of one interface |
| ExtrasReconcile.ApplyRoutes | extras/extras.go:161-181 | the routing table after replacing the new routes and deleting the dropped ones by exact gateway |
| ExtrasReconcile.ApplyRules | extras/extras.go:185-214 | copies of every ip rule after the bounded delete loops and the re-add |
| ExtrasReconcile.ApplyNat | extras/extras.go:217-245 | copies of every rule after adding the wanted NAT lines and deleting the dropped ones |
| ExtrasReconcile.Ensure | extras/extras.go:252-296 | after the watchdog pass every listed rule and NAT line is present; with a test that claims no rule that is gone every listed ip rule is, with an accurate one in one copy unless more were there; and with a route test that claims nothing that is gone every listed destination leaves the way its last line says; nothing is deleted, other routes keep their way, and the present routes it overwrites are counted |
| ExtrasReconcile.RestoreOverwritesIff | extras/extras.go:252-266 | restoring overwrites no present route exactly when none leaves another way than a line says and no two lines disagree |
| ExtrasReconcile.WantedRouteOutcome | extras/extras.go:161-181 | a listed destination ends with the gateway listed last exactly when the change did not only respell its table |
| ExtrasReconcile.UnwantedRouteOutcome | extras/extras.go:161-181 | a route no line wants is gone exactly when an old line names it with its gateway, and otherwise untouched |
| CustomMeaning.CustomChanged | extras/extras.go:185-245 | from at most one copy, a rule or `ip` rule some new line says is there, one only an old line said is gone, nothing else moves |
| CustomMeaning.LastViaIff | extras/extras.go:161-181 | custom routes send a destination the way of the last meant line about it |
| CustomMeaning.RoutesMean | extras/extras.go:161-181 | and that is how it leaves after a pass, unless the line was only respelled |
| CustomMeaning.WatchMeans | node/controller.go:120-135 | with several interfaces it is the last line of the last interface that has one |
| ExtrasReconcile.RoutePathIndependence | extras/extras.go:161-181 | any chain of custom routes ends in the host's own routes plus those of the last configuration, where a listed one is missing exactly when the last step only respelled it, whatever earlier steps did |
| ExtrasReconcile.RespelledRouteHeals | extras/extras.go:161-181 | the one route lost to respelling is back after the next pass |
| ExtrasReconcile.CleanupPasses | extras/extras.go:185-214 | n passes take a wanted rule from c copies to max(1, c - 7n) for each line that lists it |
| ExtrasReconcile.CleanupReachesOne | extras/extras.go:185-214 | n passes leave exactly one copy if and only if there were at most 7n + 1 for one line that lists the rule, 7n more for each further line |
| WgDevice.Reconcile | wg/engine.go:96-165 | the device after programming key, port and peers, for whatever order the removals come in; `PeerMeaning` reads the outcome off the fields |
| WgDevice.PeerDelta | wg/engine.go:127-159 | which peers are on the device afterwards; one that stays keeps its session, a new one gets a new session |
| WgDevice.ExactPeersIff | wg/engine.go:141-157 | exactly the desired peers, if and only if every peer already there is written the way the kernel prints it |
| WgDevice.AllowedIPs | wg/engine.go:127-159 | each allowed IP ends with the last desired peer that lists it, or with nobody: swaps and IPs of removed peers included |
| WgDevice.PeersKeptIff | wg/engine.go:127-222 | one malformed peer leaves every peer, session and allowed IP as it was; the peers stay the same exactly then, or when the device has the desired ones already and all are spelled as the kernel prints them |
| WgDevice.MisspelledKeyFlaps | wg/engine.go:141-157 | a desired peer whose key is spelled differently is removed when present and added when absent |
| PeerMeaning.DeviceMeans | wg/engine.go:96-222 | the device read off the panel's fields: key, port and which public keys are peers; when any field of any peer does not parse, no peer moves |
| PeerMeaning.OwnerMeans | wg/engine.go:196-239 | an allowed IP belongs to a peer exactly when that is the last one with a part of its comma-separated list that parses to it, and to nobody when no list has such a part |
| KernelEngine.Engine.Apply | engine/kernel.go:24-57 | rules, entries and devices after reconciling every interface and tearing down the rest, for whatever order the map is walked in |
| OverlayLink.MatchesIff | overlay/overlay.go:188-238 | a link made from one configuration is accepted for another exactly when kind and VNI agree and each address, device, port and key the new one sets is a prefix of the installed value |
| OverlayLink.OwnConfigAccepted | overlay/overlay.go:153-238 | a link is accepted for the configuration that made it, exactly unless it is a tunnel with a device whose source address the kernel left open; names and addresses only have to be words |
| OverlayLink.VniTest | overlay/overlay.go:220 | the VNI comparison is exact thanks to the trailing blank |
| LinkMeaning.CommandMakes | overlay/overlay.go:121-184 | the command that makes a link, word by word: tunnel or VXLAN by kind, and every set field under its keyword |
| OverlayFirewall.SpecOfLine | overlay/overlay.go:507-513 | a printed rule reads back as a plain spec exactly when it is a copy of that rule |
| OverlayFirewall.DedupeRules | overlay/overlay.go:518-547 | every kept spec is left with min(c, 1) copies, every other rule with all of its |
| OverlayFirewall.Forget | overlay/overlay.go:321-331 | each rule of the link loses up to eight copies, nothing else changes |
| Overlay.Plan | overlay/overlay.go:242-263 | the links to remove and the links to ensure, in order |
| Overlay.StaleRoutes | overlay/overlay.go:73-95 | the routes of surviving links that are no longer wanted |
| OverlayConvergence.StaleListMembers | overlay/overlay.go:73-95 | a spec is among them exactly when some surviving old link lists it and the new configuration of that name does not |
| Overlay.Ensure | overlay/overlay.go:418-465 | link, routes and rules after ensuring one link, and exactly how much it deletes, flushes or overwrites; the address test reads the listing of `ip -4 addr show` |
| LinkMeaning.EnsureMeans | overlay/overlay.go:408-465 | on a host without it a link is there after Ensure exactly when it has a name, an address and, unless it is an ipip or gre tunnel, a network identifier; then it is up, with its address and the MTU its kind leaves |
| LinkMeaning.RuleNeededIff | overlay/overlay.go:296-340 | the firewall rules a configuration needs, spelled out |
| Overlay.Remove | overlay/overlay.go:468-477 | link, its routes and its rules go |
| Overlay.SelfCheck | overlay/overlay.go:553-571 | managed rules are left with at most one copy, and nothing is deleted when there is no surplus |
| Overlay.Reconcile | overlay/overlay.go:594-608 | links, routes and copies of every rule after one pass; with nothing to remove it disturbs exactly what ensuring the links in turn disturbs |
| LinkMeaning.NamedPicks | overlay/overlay.go:242-263 | the links a pass ensures are the named ones, all of them, in order |
| LinkMeaning.PassMeans | overlay/overlay.go:594-608 | the same of a link after a whole pass |
| LinkMeaning.SyncMeans | node/controller.go:254-273 | and after a whole sync, with one pass or two |
| OverlayConvergence.LinksConverge | overlay/overlay.go:594-608 | links of the old configuration only are gone, every applicable link is in place, every other link is untouched |
| OverlayConvergence.RoutesConverge | overlay/overlay.go:594-608 | every listed route leaves the way its last lister says, even a spec that moved between links, and is missing exactly when it uses a link that is rebuilt after that lister's turn; other routes stay unless swept |
| OverlayConvergence.NeededHasOneCopy | overlay/overlay.go:296-340 | every rule of an applicable link has exactly one copy afterwards, however many there were |
| OverlayConvergence.ForeignRuleUntouched | overlay/overlay.go:518-547 | rules that name neither a tunnel protocol nor a link keep their copies |
| OverlayConvergence.RemovedRuleOutcome | overlay/overlay.go:321-331 | a rule of a removed link loses eight copies for each time it was listed, so all of up to eight |
| OverlayConvergence.SecondPassChangesNothingIff | node/controller.go:254-273 | the second pass of a sync, made with the same old configuration, leaves links and routes as the first did exactly when the first lost no listed route to a rebuilt link |
| OverlayConvergence.InPlacePassIff | overlay/overlay.go:594-608 | once the links are in place a pass changes nothing exactly when every listed route leaves its way and no stale one is there |
| OverlayConvergence.TwoPassesConverge | node/controller.go:254-273 | after two passes every link is in place and every listed route leaves its way; a third pass changes nothing |
| OverlayConvergence.SecondPassRulesIff | node/controller.go:254-273 | and leaves a rule so exactly when no removed link names it or the first pass could delete all its copies |
| OverlayConvergence.UnchangedIsQuietIff | overlay/overlay.go:418-465 | an unchanged configuration on a converged host changes no link and no route, and deletes, flushes and overwrites nothing exactly when every address is listed as it is written and no two specs send one destination different ways |
| OverlayConvergence.AddressListedIff | overlay/overlay.go:284-290 | after a pass the listing holds a link's address exactly when it did before on a link that stayed or the kernel lists the address as it is written |
| Controller.OverlayOrder | node/controller.go:365-393 | the overlay links of a response are made from its named tunnels, all of them, in order, each with the MTU of the interface it rides on |
| Controller.OverlayMembers | node/controller.go:365-393 | a link is among them exactly when some interface carries a named tunnel it is made from, where the single tunnel of an old panel counts only when there is no list |
| Controller.RecordMeans | node/controller.go:226-268 | what a response leaves recorded: the interface of every entry, in order, unless sing-box was asked for and failed |
| Controller.ManagedMeans | engine/kernel.go:24-57 | what the kernel engine manages then: every entry under its name, and nothing else |
| Controller.Agent.EnsureNat | node/controller.go:306-315 | every rule a desired interface wants is there, nothing is deleted |
| Controller.Agent.EnsureExtras | node/controller.go:282-301 | custom entries of every interface are converged from what was applied for it last, and remembered |
| Controller.Agent.WatchdogTick | node/controller.go:120-135 | the tick restores what the last recorded state asks for, routes included; with accurate presence tests it disturbs nothing but the present routes that leave another way than a line says, which are counted |
| RouteRuns.TickRestoresIff | node/controller.go:120-135 | after a tick every custom route of every desired interface is in place exactly when no two lines send one destination different ways, and then the next tick changes no route |
| RouteRuns.QuietTickIff | node/controller.go:120-135 | a tick overwrites no present route exactly when none leaves another way than a line says and no two lines disagree |
| Controller.Agent.EnsureEngine | node/controller.go:139-153 | a switch away from the kernel engine tears down everything it managed, rules, entries and devices, and forgets it; otherwise nothing on the host changes |
| Controller.Agent.SyncWith | node/controller.go:226-277 | memory, rules, entries, devices, links and routes after one sync, for either engine, healthy or failed: NAT, custom entries and one overlay pass in any case, the recorded state and the second pass only on success; when the response gives the kernel engine another name, all it managed is torn down first and the new one starts from nothing; read off the entries of the response, the record holds every one in order, the kernel engine manages exactly them, and each has its device |
| Controller.Agent.Sync | node/controller.go:226-231 | a failed fetch changes nothing, on the host or in memory |
| Controller.Agent.HeartbeatTick | node/controller.go:183-223 | one heartbeat: when it leads to a sync, what is remembered afterwards, and what the sync does to the host |
| SyncMeaning.FirstSync | node/controller.go:226-277 | the first sync of an agent on any host: a rule or entry of which there was at most one copy is there once exactly when some entry of the response asks for it in its fields or lines or some link that can be built needs it, and as it was otherwise; every tunnel that can be built is built; the kernel engine gives every entry its device with its peers and allowed IPs |
| SyncMeaning.FirstRules | node/controller.go:226-277 | the same of one firewall rule |
| SyncMeaning.FirstEntries | node/controller.go:226-277 | the same of one `ip` entry |
| SyncMeaning.NewDeviceMeans | wg/engine.go:96-159 | the device of an entry the host had none for |
| SyncMeaning.NatOfEntry | node/controller.go:249-259 | after any sync, failed or not, a NAT rule an entry of the response asks for is there, unless a custom line that spells it was just dropped |
| SyncMeaning.AskedMeans | node/controller.go:234-259 | what the run theorems call asked for is what the fields and lines of some entry of the response ask for |
| SyncMeaning.TickMeans | node/controller.go:120-135 | a tick puts back exactly what the policy texts open and the custom lines say |
| RuleRuns.RunAccounted | node/controller.go:226-277 | after any run, under either engine and with any failures, the agent's memory accounts for every copy, at most one, that the host did not have before, except for a rule that strayed: NAT under sing-box, or what a tick brought back after a failed sync |
| RuleRuns.KernelRunsTrack | node/controller.go:226-277 | in runs under the kernel engine nothing strays |
| RuleTheorems.NatExact | wg/nat.go:68-189 | after every sync of any run, failed or not, a wanted NAT rule has the host's own copies plus exactly one, whichever interfaces shared it, unless a custom line that spells it was just dropped; one nobody asks for is as the host had it exactly when it was so already or the sync drops it |
| RuleTheorems.NatPresentIff | node/controller.go:249-259 | a wanted NAT rule is present after a sync exactly when some interface lists it as a custom line and no later one just dropped that line, or no interface just dropped it |
| RuleTheorems.CustomPresentIff | node/controller.go:239-259 | what one sync, under either engine and failed or not, leaves of any rule: the custom lines have the last word over what engine and ensureNAT left |
| RuleTheorems.CustomExact | node/controller.go:239-259 | after every sync of any run, failed or not, a listed custom NAT line has exactly one copy if no interface after its last lister just dropped it, and none otherwise |
| RuleTheorems.FailedSyncOutcome | node/controller.go:254-268 | after a failed sync and a tick a rule the failed snapshot does not ask for is there exactly when the recorded older state asks for it or the sync did not drop it; and whether the next sync removes it |
| RuleTheorems.SingBoxLeavesNat | node/controller.go:306-315 | under sing-box a rule nobody asks for goes only as a custom line some desired interface dropped: NAT switched off stays |
| RuleTheorems.ApplyKeepsRuleIff | engine/kernel.go:28-55 | Apply alone keeps a rule exactly when some interface it drives wants it and no later one tears it down, or it was there and none does, and no removed interface clears it |
| RuleTheorems.SharedRuleLostAndRestored | engine/kernel.go:42-47 | a rule shared with a removed interface is gone after Apply and back after ensureNAT |
| RuleTheorems.EnsureNatCloses | node/controller.go:306-315 | whatever Apply left, every wanted NAT rule is present after ensureNAT and no other rule changes |
| RuleTheorems.TickedExact | node/controller.go:120-135 | a successful sync and one tick leave exactly one copy of every rule the newest configuration stands for, although its interfaces may have deleted each other's, when nothing strayed and no vanished interface left it |
| RuleTheorems.TickedExactIff | node/controller.go:226-301 | after any run, a successful sync and a tick are exact for a rule if and only if the configuration asks for it, or no copy of the agent's was left, or the sync drops it |
| RuleTheorems.LeftoverLastsIff | node/controller.go:226-301 | over any further run whose syncs never ask for a rule, engine failures included, it is there at the end exactly when the last to touch it was a tick whose recorded state asks for it, or it was there and no sync dropped it |
| RuleTheorems.VanishedRuleStaysIff | node/controller.go:282-301 | after adding and removing an interface a rule the host did not have is there exactly when the interface listed it and does not compute it as a NAT rule |
| RuleTheorems.RemovalTakesOperatorRuleIff | engine/kernel.go:42-53 | adding and removing an interface, with NAT on or off, restores a rule's count exactly when the host had none or the interface does not compute that rule |
| RuleTheorems.DuplicateNamesLeakIff | engine/kernel.go:28-40 | of two interfaces with one name, a rule the first wanted stays behind for good exactly when the second does not compute it |
| EntryRuns.RunBalanced | node/controller.go:226-277 | after any run, under either engine and with any failures, the agent's memory accounts for the copies of every policy and custom ip entry, strays excepted |
| EntryRuns.KernelRunsTrackEntries | node/controller.go:226-277 | in runs under the kernel engine no entry strays |
| EntryRuns.CustomEntriesExact | node/controller.go:239-259 | after every sync of any run, failed or not, a listed custom ip rule has exactly one copy if no interface after its last lister just dropped it, and none otherwise |
| EntryRuns.FailedSyncEntryOutcome | node/controller.go:254-268 | the outcome of a failed sync, a tick and a further sync for an ip entry |
| EntryRuns.TickedEntriesExact | node/controller.go:120-135 | a successful sync and one tick leave exactly one copy of every entry the newest configuration lists, when nothing strayed and no vanished interface left it |
| EntryRuns.TickedEntriesExactIff | node/controller.go:226-301 | and that holds, after any run, if and only if the entry is listed, or no copy of the agent's was left, or the sync drops it |
| EntryRuns.LeftoverEntryLastsIff | node/controller.go:226-301 | the same law of leftovers for ip entries |
| EntryRuns.VanishedEntryStaysIff | node/controller.go:282-301 | after adding and removing an interface an entry the host did not have is there exactly when the interface listed it as a custom rule and in no policy line |
| OverlayRuns.LinksAlongRun | node/controller.go:233-254 | a link some earlier configuration named and the newest does not is gone, however long ago; one never named is untouched |
| OverlayRuns.LinkRulesAlongRun | overlay/overlay.go:594-608 | the same for the firewall rules that name a link: none left, or at most one copy while the link is named |
| OverlayRuns.ProtocolRulesAlongRun | overlay/overlay.go:321-340 | the rules for the tunnel protocols along any run: as the host had them until a configuration lists a link, at most one copy until one has an applicable link, exactly one from then on, also when the last link is gone |
| OverlayRuns.LinkPlaced | overlay/overlay.go:418-465 | after any sync, also one with a failed engine, every applicable link is in place |
| OverlayRuns.LinkRulesPlaced | overlay/overlay.go:296-340 | after a sync each firewall rule of an applicable link has exactly one copy |
| OverlayRuns.RoutePlaced | node/controller.go:270-273 | after a healthy sync every listed route of a link leaves the way the link says, also one that uses the device of a link rebuilt on the way |
| RouteRuns.RunHoldsRoutes | node/controller.go:226-301 | after any run, failures included, a destination that no overlay link of the run has to do with has the host's own route, or one some remembered interface lists, strays excepted |
| RouteRuns.RunAccountsRoutes | overlay/overlay.go:73-95 | every route on the host after any run, whatever links and interfaces list its destination, was there all the time, or is listed by a remembered interface or link, or strayed, or outlived its removed link by not using its device: what a surviving link listed once and nobody lists any more is gone |
| RouteRuns.KernelRunsTrackRoutes | node/controller.go:226-277 | in runs under the kernel engine no route strays |
| RouteRuns.CustomRoutePlacedIff | node/controller.go:239-259 | a custom route after one sync, failed or not: the way of the last interface that lists it, missing exactly when that one only respelled it, a later one just dropped that route, or the second overlay pass of a successful sync deletes it because a surviving link just dropped it; when a link lists the destination too, the second pass gives it the way of the link |
| RouteRuns.MovedRouteIsLost | node/controller.go:254-273 | one edit that moves a route from a surviving link to the custom routes of an interface leaves a fully successful sync without it |
| RouteRuns.FailedSyncRouteOutcome | node/controller.go:254-268 | after a failed sync and a tick a destination the failed snapshot does not list as a custom route leaves as the recorded older state says, else as the one overlay pass of the sync left it unless the sync dropped that; and, for a destination no link lists, that pass leaves it alone, and whether the next sync removes it |
| RouteRuns.SyncSecondPassIff | node/controller.go:254-273 | the second overlay pass of a sync, with NAT and the custom routes in between, changes nothing exactly when the custom passes left the link routes settled; when custom routes and links share no destination, exactly when the first pass lost no listed route |
| RouteRuns.ListedRoutePlaced | node/controller.go:120-135 | after any run and a tick, every destination the recorded state lists leaves the way its last line says; after a failed sync that is the older state |
| RouteRuns.UnlistedRouteExactIff | node/controller.go:226-301 | after a sync and a tick a destination that neither the sync nor the recorded state lists, and no overlay link of the run has to do with, has the host's own route exactly when it had it before the sync or the sync dropped the route that was there |
| RouteRuns.LeftoverRouteLastsIff | node/controller.go:226-301 | over any further run whose syncs never list a destination, and for one no overlay link of the run lists: it leaves a given way exactly when the last tick that lists it said so and no later sync dropped that, or no tick lists it and it left that way before and no sync dropped it |
| RouteRuns.VanishedRouteStaysIff | node/controller.go:282-301 | after adding and removing an interface a destination the host had no route for, and the links do not list, has one exactly when the interface listed it |
| DeviceRuns.DevicesAlongRun | engine/kernel.go:24-57 | along any run, engine switches included, a device the kernel engine manages is there, one it managed once and does not any more is gone however long ago, any other is untouched |
| DeviceRuns.SessionKeptIff | wg/engine.go:127-159 | over any stretch of a run in which the kernel engine drives the interface, a peer keeps its session exactly when every sync on the way writes its key the way the kernel prints it or is malformed for that interface: no other edit and no tick interrupts it |
| NodeRun.HeartbeatTurn | node/controller.go:183-223 | with either engine, healthy or failed, a heartbeat changes nothing or is exactly one sync of the run model |
| NodeRun.Run | node/controller.go:88-116 | the whole loop, engine switches and failures included: the run of syncs and ticks it went through accounts for memory, every rule, every entry, links, routes and devices |
| NodeRun.HostNatExact | node/controller.go:249-258 | NAT exactness of the host the loop works on, after every sync, failed or not |
| NodeRun.HostRuleExactAfterTick | node/controller.go:120-135 | exactness of policy, custom and NAT rules on that host after a successful sync and a tick |
| NodeRun.HostEntriesExact | node/controller.go:120-135 | exactness of policy and custom ip entries on that host after a successful sync and a tick |
| NodeRun.HostRoutesExact | node/controller.go:120-135 | after a tick destinations the recorded state lists leave as listed on that host, unlisted ones that no overlay link has to do with as before the agent came |
| NodeRun.HostDevicesExact | engine/kernel.go:24-57 | devices on that host: those the kernel engine manages are there, those it managed once are gone, the others are as the host had them |
| Protocol.RecordIsSnapshot | node/controller.go:260-268 | the recorded revision and state always are one snapshot the panel had, that of the latest successful sync |
| Protocol.RevisionNeverGoesBack | node/controller.go:265-268 | recorded revisions never go back when the panel's never do |
| Protocol.NoEditMissed | node/controller.go:217-222 | a heartbeat that gets through either leaves the agent with a snapshot at least as new as it saw or asked for the full state and failed |
| Protocol.AsksUntilFirstRecord | node/controller.go:217-222 | until the first successful sync every successful heartbeat asks for the full state |
| Protocol.AsksUntilRecorded | node/controller.go:217-222 | an outstanding edit keeps every later heartbeat asking until a sync succeeds |
| Protocol.OverlayChain | node/controller.go:239-254 | the overlay links the next pass starts from are those of the snapshot fetched last, engine failures included |
| Protocol.ExtrasChain | node/controller.go:282-300 | the custom entries the next pass of an interface starts from are those of the fetched snapshot that named it last |
| Protocol.EditReachesAgentIff | node/controller.go:217-231 | over any run, a heartbeat leaves the agent with the state of the served snapshot exactly when the engine accepts it and the heartbeat was forced or saw another revision than the recorded snapshot's, or the two ask for the same state |
| Protocol.LinksReachAgentIff | node/controller.go:239-263 | and with its overlay links exactly when the heartbeat was forced or saw another revision than the recorded snapshot's, or the links fetched last are the same |
| Protocol.FirstStateReachesAgent | node/controller.go:217-222 | before anything is recorded every served heartbeat takes the snapshot in |
| SingBox.RenderedEqualIff | engine/singbox.go:124-165 | two configurations are rendered alike exactly when their interfaces agree, in order, on name, port, key, addresses, MTU and peers, up to blanks in lists and unset numbers |
| BoxMeaning.RenderedMeans | engine/singbox.go:124-177 | the configuration holds every interface and peer in order, each field as the panel sent it, lists without their blank parts |
| BoxMeaning.InForceMeans | engine/singbox.go:66-100 | after any run a successful Apply leaves that on disk and in the current process |
| SingBox.Engine.Apply | engine/singbox.go:66-100 | the next state and the outcome, for every way writing, finding and starting the program may fail |
| SingBox.Engine.Restart | engine/singbox.go:180-207 | the old process is stopped first; the new one is recorded only when it started |
| SingBox.Engine.Waiter | engine/singbox.go:199-205 | the waiter clears `running` only for the current process |
| SingBox.AlwaysConsistent | engine/singbox.go:66-234 | in every interleaving `running` implies that file, last configuration and the current process's configuration are one, and that its end will still be noticed |
| SingBox.ApplyPutsInForce | engine/singbox.go:66-100 | whenever Apply succeeds, early or late, the configuration asked for is the one in force |
| SingBox.LiveAfterApplyIff | engine/singbox.go:80-82 | it leaves a live process exactly when it did not trust one whose end is not noticed yet |
| SingBox.NoticedCrashIsHealed | engine/singbox.go:199-205 | once every waiter ran, applying even the same configuration gives a live process |
| SingBox.RunningClearedOnlyBy | engine/singbox.go:199-205 | a waiter of an old process never clears `running` of a newer one |
| SingBox.EndIsNoticed | engine/singbox.go:199-205 | the end of the current process is noticed however many steps come first |
| SingBox.OneProcess | engine/singbox.go:180-183 | at most one process is alive at any time |
| SingBox.ChangeIgnoredIff | engine/singbox.go:75-98 | after a start, applying another configuration changes nothing exactly when sing-box sees no difference; a change of NAT, policy or custom lines alone leaves the engine managing the old interfaces |
| SingBox.ManagedIsLastStarted | engine/singbox.go:75-98 | over any run the managed interfaces and the remembered configuration are those of the last Apply that started a process |
| SingBox.ManagedIsCurrentIff | engine/singbox.go:75-98 | after a successful Apply they are the desired ones exactly when the engine was not running the configuration of that start or that start asked for the same interfaces |
| BoxLoop.LiveProcessRunsRecord | node/controller.go:226-268 | over any run of heartbeats, edits, failures, crashes and engine switches a live sing-box runs the configuration of the recorded state, and none is alive under another engine |
| BoxLoop.DeadUntilRevivedIff | engine/singbox.go:66-100 | a dead sing-box stays dead exactly until a heartbeat that fetches a response for it, finds the configuration not in force as far as the engine knows, and manages to start it |
| BoxLoop.CrashStaysUntilEdit | node/controller.go:217-222 | no heartbeat that sees the recorded revision starts a crashed sing-box again; the first one that sees another revision does, exactly when the crash was noticed or the edit changes what is rendered, and the start succeeds |
| Version.ReadVersion | selfupdate/selfupdate.go:172-189 | the parts of a version name, with 64-bit wrap-around |
| Version.NewerVersion | selfupdate/selfupdate.go:154-169 | newer exactly when larger at the first difference of the zero-padded parts |
| Version.NewerIsStrictWeakOrder | selfupdate/selfupdate.go:154-169 | irreflexive, asymmetric, transitive, incomparable exactly when equal up to trailing zeros, and incomparability is transitive |
| Version.PartsOfVersion | selfupdate/selfupdate.go:172-189 | reading a printed version gives each part modulo 2^64 |
| Version.PartsComeBackIff | selfupdate/selfupdate.go:172-189 | the parts come back exactly when each one is below 2^63 |
| Version.SpellingsMean | selfupdate/selfupdate.go:172-189 | a name reads the same with blanks around it, with one leading v and blanks behind that |
| Version.SuffixIgnored | selfupdate/selfupdate.go:180-187 | a suffix after the last number changes neither the parts nor the order |
| Upgrade.Upgrader.Begin | selfupdate/selfupdate.go:199-231 | whether a call attempts the upgrade, and the process-wide state afterwards |
| Upgrade.NextAttemptIff | selfupdate/selfupdate.go:214-226 | after a run, a free eligible call attempts exactly when it orders another version or the cooldown of the latest attempt is over |
| Upgrade.AttemptMeans | selfupdate/selfupdate.go:199-231 | over any run, a call attempts exactly when it names a newer version and an address, none is under way, and five minutes have passed since the latest attempt unless that was for another version |
| Upgrade.AttemptsAreSpaced | selfupdate/selfupdate.go:214-226 | over any run for one version, successive attempts are at least the cooldown apart |
| Upgrade.WindowBound | selfupdate/selfupdate.go:219-226 | a window of length T holds at most T / cooldown + 1 attempts |
| Upgrade.SkippedChangeNothing | selfupdate/selfupdate.go:220-226 | calls inside the cooldown change no state, so they never push the next attempt away |
| Upgrade.NextAttemptInTime | selfupdate/selfupdate.go:219-226 | with eligible calls at most h apart the next attempt comes between cooldown and cooldown + h after the last |
| Upgrade.SingleFlight | selfupdate/selfupdate.go:209-212 | between two attempts of any controllers the first one ends |
| Upgrade.FlippingDefeatsCooldown | selfupdate/selfupdate.go:215-218 | two orders in turn lead to any number of attempts at one instant |

## Left out

- HTTP, JSON, YAML, downloads, re-execution and the insides of `ip`, `iptables`, netlink and wgctrl: input, output and foreign code; commands are methods of `Host.Kernel`.
- Failing commands: every command on the host succeeds when its object allows it, so a half-applied list of rules is not modelled.
- Policy `ip route` lines: they are entries of their own, independent of the routing table the overlay links and custom routes use; a second `ip route add` of one destination adds a copy here, while the kernel refuses it; a line without `add` or `del` changes nothing here.
- Positions inside a chain: `iptables -A` and `-I` both add one copy.
- Concurrent passes of two controllers over one host: the mutex of the controller, the ticker loop and the sing-box mutex are taken as the units of interleaving.
- Overlay.Reconcile: requires link names that `iptables -S` prints without quotes, since a quoted name does not read back as the same spec.
- Policy.EnsurePolicyRoutes: the presence test is a parameter; the code's own test assumes lines without `table` to be present and compares substrings, which is why restoring is stated for tests that claim nothing that is gone.
- ExtrasReconcile.Ensure: the presence tests are parameters for the same reason; the code's own route test only reads the main table and compares a substring of the gateway.
- RouteRuns.UnlistedRouteExactIff: for destinations no overlay link of the run lists and whose own route leaves through no such link; a destination that links and interfaces both list is covered by `RouteRuns.RunAccountsRoutes` for any run, and pass by pass by `OverlayConvergence.RoutesConverge`, `RouteRuns.CustomRoutePlacedIff` and `RouteRuns.ListedRoutePlaced`.
- RouteRuns.RunHoldsRoutes: for the same destinations, as is the unlisted half of `NodeRun.HostRoutesExact`.
- RouteRuns.LeftoverRouteLastsIff: for destinations no overlay link of the run lists.
- RouteRuns.FailedSyncRouteOutcome: what the next sync removes, for destinations no overlay link of the three configurations lists.
- RouteRuns.VanishedRouteStaysIff: for destinations the configured links do not list; what a link lists leaves the way of the link (`OverlayRuns.RoutePlaced`).
- WgDevice.Reconcile: preshared keys, keepalives, MTU and addresses of the device are not part of the state; the code never clears the first two and only sets the MTU on creation.
- SingBox.Engine.Apply: NAT and policy lines in system mode are represented by the remembered interfaces only, not by their effect on the host; the JSON text is represented by the value it encodes.
- Upgrade.Upgrader.Begin: the error text kept for the next heartbeat is not modelled, nor is the upgrade itself.
- Controller.Agent.EnsureEngine: sing-box does not touch the modelled host when it is torn down; it is modelled in its default gVisor mode, so the NAT and policy lines of its system mode are not effects on the host.
- NodeRun.Run: stated for panels that ask for `kernel` or `singbox`, name links so that `iptables -S` does not quote them, and name the interfaces of a response apart (`RuleTheorems.DuplicateNamesLeakIff` says what duplicates cost).
- State of an earlier agent process: memory starts empty, as in the original.
- `conf/crypto.go`, `conf/conf.go`, `main.go`, `panel/client.go`, `engine/engine.go`, `singbox/singbox.go`, `scripts/install.sh`: library calls, defaults, wiring and transport; they would only add easy members.
- Logging, `warnOnce`, reverse-path filter and forwarding switches: no effect on the modelled state.
- Watching the binary on disk and the status report: no reconciliation.
