# Verified model of awg-manager's hard core

A Dafny model of the parts of awg-manager whose correctness is not visible from one function:
a hand-written single-flight cache, transactions with rollback over a store and a config slot, a
two-store write protocol for WireGuard peers, IPv4 mask arithmetic, two codecs, and the merging and
allocation loops around them. Code that changes state is a class or a method with loops, proved
against a specification function or a property; what the source promises is then proved about that
function, over all inputs, all runs or all interleavings. `dafny verify dfyconfig.toml` checks
everything.

| files | subject |
|---|---|
| `GeositeCache`, `GeositeProtocol` | the geosite catalogue cache: its two critical sections, and any number of callers interleaved step by step with a monotone clock |
| `Awg3Store`, `Awg3Endpoints`, `Awg3Answers`, `Awg3Runs`, `Awg3Protocol` | AWG3 endpoints: store in memory and on disk, import, delete and rename with undo, exact answers, runs mixed with router edits and restarts, and interleaved requests |
| `Bits`, `Subnet`, `ServerPeers`, `PeerAnswers`, `PeerRuns`, `PeerProtocol` | WireGuard peers: byte-wise mask check, add, update, delete and toggle over router and secret store, exact answers, runs, and interleaved requests with crashes |
| `Base64`, `RoutePath` | the tolerant base64 decoder and key check; splitting escaped paths |
| `TunnelLabels`, `TunnelRows`, `ExcludedTunnels`, `AccessPolicies`, `Hotspot`, `WanStability`, `ServerList`, `InterfaceRefs`, `InboundTags` | merging, allocation and detection loops |
| `Common`, `Text` | options; trimming, order and sorting of strings |

## Where the code and its documentation part

The model follows the code. Each of these is a theorem below.

- A failed write of the AWG3 store leaves the change in memory with no undo, so an error answer is
  not always without effect (`Awg3Runs.AllOrNothing` says exactly when it is, `InStepExactly` when
  file, memory and slot part). A restart then forgets tags that rules may name: it is safe exactly
  when the file names every tag that memory names (`Awg3Runs.RestartExactly`), and
  `Awg3Runs.LosesTagExactly` says which failed write ends that. `FailedWriteThenRestartDangles` is
  one such run.
- The guard in front of delete and rename means to keep references from dangling
  (internal/api/awg3_endpoints.go:239-240, 312-313). It misses those in a router or fakeip slot that
  cannot be read, because the lookup drops the error
  (internal/singbox/router/service_outbounds.go:235, 242), and those nobody looks at, such as the
  outbounds of nested rules (internal/singbox/router/config.go:713-723). `Awg3Runs.GroundedExactly`
  is the exact condition, `UnreadableConfigDangles` and `NestedReferenceDangles` are inputs.
- The guards of AWG3 requests and the store calls are not atomic: two imports of one tag can both
  pass (`Awg3Protocol.ConcurrentImportsDouble`). `Awg3Protocol.OverlapExactly` says which requests
  may double a tag.
- The tag lister that import and rename consult is documented to know every outbound
  (internal/api/awg3_endpoints.go:86-91), but the one wired in returns managed, system and AWG3 tags
  only (cmd/awg-manager/awg_outbounds_adapters.go:170-183): `Awg3Runs.ForeignTagsExactly`.
- The comment at internal/api/server_peers.go:268-272 promises that a retry after a failed save
  still reconciles the stored secret. The failed save has already changed the copy in memory, so
  the retry finds no difference and writes nothing (`PeerRuns.RetryAfterFailedSaveWritesNothing`).
- An add whose save failed leaves the new private key in memory (`PeerRuns.AddAllOrNothing`), from
  where the next save that succeeds writes it to the file (`PeerRuns.StrandedSecretSaved`).
- A router that wipes the comment on partial edits (internal/ndms/command/wireguard.go:181-183)
  loses a peer's name when only its address is updated: `PeerRuns.CommentLost` is the exact
  condition in `PeerRuns.UpdateReconciles`, `CommentLostWitness` an input that meets it.
- Another /32 route of a peer, added outside this program, hides a newly put address
  (`PeerRuns.Shadowed`, `ShadowedWitness`); runs of this handler alone never get there
  (`PeerRuns.NeverShadowed`).
- A peer left without an address accepts the text "/32" and stores it (`PeerRuns.BareSlashIsStored`);
  it is the only text that makes the stored one name no address (`PeerRuns.StoredTextNamesNone`).
- An update may put an address that another peer has, or take one away and fail to put the new one:
  `PeerRuns.UpdatePlacedExactly`.
- The in-use check and the router call are not atomic, so concurrent adds can share an address
  (`PeerProtocol.ConcurrentAddsCollide`), exactly when one starts on the address of another that
  is unfinished (`PeerProtocol.OverlapExactly`).
- `IsStandardPolicyName` is documented to refuse padding, but accepts "Policy00"
  (`AccessPolicies.PaddedNameAccepted`; `StandardNames` gives the exact set that `Create` can name).
- The cache's text for "not loaded yet" is never answered: an error always carries the last
  attempt's own text (`GeositeProtocol.AnswersHonest`).

## Model

| member | source | states |
|---|---|---|
| GeositeCache.GeositesHandler.Enter | internal/api/singbox_geosites.go:121-153 | the first critical section changes the fields and settles as the decision function says, for every cache content and every clock reading |
| GeositeCache.GeositesHandler.Leave | internal/api/singbox_geosites.go:157-168 | the second critical section records the outcome of the caller's own fetch and answers from the new content |
| GeositeCache.NameOfInvertsFileOf | internal/api/singbox_geosites.go:237-244 | a tree entry yields a name exactly when it is that non-empty name's file |
| GeositeCache.CatalogueOf | internal/api/singbox_geosites.go:229-251 | the catalogue is sorted and holds each name as often as its file is listed; a truncated listing or one without names is an error |
| GeositeProtocol.StepInv | internal/api/singbox_geosites.go:120-170 | every step of any caller keeps mutex, flight, waiter, history, cache and answer invariants |
| GeositeProtocol.SingleFlight | internal/api/singbox_geosites.go:139-159 | in every reachable state at most one fetch is under way, its owner does not hold the mutex, every channel has been closed exactly once unless its fetch is under way, and a waiter's channel is the current one or closed |
| GeositeProtocol.NobodyBlocksOnceListed | internal/api/singbox_geosites.go:139-149 | once a list exists every waiter can go on |
| GeositeProtocol.NoDeadlock | internal/api/singbox_geosites.go:120-170 | while any call is under way some caller can take a step: no lost wakeup, no mutex left locked |
| GeositeProtocol.PausesKept | internal/api/singbox_geosites.go:31-46 | a fetch starts at least 5 s after the previous one ended; an unforced one at least 60 s after a failure and 24 h after a success |
| GeositeProtocol.UnforcedWaitsOutLifetime | internal/api/singbox_geosites.go:123-128 | however many attempts failed in between, an unforced fetch starts at least 24 h after the latest success |
| GeositeProtocol.UnforcedSpread | internal/api/singbox_geosites.go:123-138 | between two fetches with only unforced ones after the first lie at least 60 s for each |
| GeositeProtocol.WindowBound | internal/api/singbox_geosites.go:39-43 | unforced traffic starts at most T/60 s + 1 fetches in any window of length T |
| GeositeProtocol.AnswersHonest | internal/api/singbox_geosites.go:123-147 | a list answered is that of the latest success and, when not marked stale, under 24 h old; errors are the last attempt's own and occur exactly while nothing has succeeded |
| GeositeProtocol.StaleMark | internal/api/singbox_geosites.go:131-168 | any answer marked stale, given before or after a fetch of one's own, follows a failed attempt or was given while another fetch was open; an unforced caller gets the mark only on a list past its 24 h |
| GeositeProtocol.DecisionExactly | internal/api/singbox_geosites.go:121-153 | in every reachable state the recorded outcomes, the caller and the clock alone decide whether a call starts a fetch, waits for the open one or is answered at once, and whether that answer is marked stale |
| GeositeProtocol.ForcedFetchStarts | internal/api/singbox_geosites.go:123-128 | with no fetch open, a forced call starts one as soon as the last attempt is 5 s old, however fresh the list |
| GeositeProtocol.UnforcedFetchStarts | internal/api/singbox_geosites.go:123-138 | an unforced call does once no success is under 24 h old, the last attempt is 5 s old and, if it failed, 60 s |
| GeositeProtocol.OwnFetchExactly | internal/api/singbox_geosites.go:156-168 | after its own fetch a caller gets the new list unmarked, or the list of the latest success marked stale, or without any the failure itself |
| Awg3Store.Store.Delete | internal/awg3endpoint/store.go:92-105 | removes the first record with the id; a failed write leaves memory changed and the file as it was |
| Awg3Store.Store.Rename | internal/awg3endpoint/store.go:108-129 | retags the last record with the id unless another record carries the tag |
| Awg3Endpoints.Awg3Handler.Sync | internal/awg3endpoint/service.go:39-75 | an accepted write fills the slot with the objects of the store, each under its record's tag and in the order of the records, found at increasing positions that miss only records without an object; a refused one leaves it |
| Awg3Endpoints.Awg3Handler.CollectTaken | internal/api/awg3_endpoints.go:348-362 | store tags plus those the lister returns; store tags alone when the lister fails |
| Awg3Endpoints.Awg3Handler.Referenced | internal/api/awg3_endpoints.go:369-388 | a yes means a listed rule or a readable other place names the tag, a no that none of those does, unknown that the rules could not be listed; a slot that cannot be read counts as empty |
| Awg3Endpoints.Awg3Handler.HandleImport | internal/api/awg3_endpoints.go:198-219 | import with its guards, store write, projection and undo is the request specification on the whole state |
| Awg3Endpoints.Awg3Handler.HandleDelete | internal/api/awg3_endpoints.go:233-267 | the same for delete |
| Awg3Endpoints.Awg3Handler.HandleRename | internal/api/awg3_endpoints.go:291-341 | the same for rename |
| Awg3Answers.ImportExactly | internal/api/awg3_endpoints.go:198-219 | an import succeeds exactly when the config is valid, the trimmed tag allowed and free and both calls succeed, and then adds one record with this id, tag and endpoint and puts its object into the slot under the tag; every other answer has its exact condition |
| Awg3Answers.DeleteExactly | internal/api/awg3_endpoints.go:233-267 | the same for delete: conflict exactly when the tag is seen in use, an error when it is unsure or a call fails, else the first record with the id goes and nothing else |
| Awg3Answers.RenameExactly | internal/api/awg3_endpoints.go:291-341 | the same for rename: the tag must be allowed and free or the one the record has, the old one not seen in use unless it stays, and a success changes that one tag |
| Awg3Answers.NotFoundExactly | internal/api/awg3_endpoints.go:235-236 | a request for a record that does not exist, and only such a one, is answered so, and changes nothing |
| Awg3Runs.AllOrNothing | internal/api/awg3_endpoints.go:204-216 | success leaves memory, file and slot at the requested change; an error keeps the slot, and keeps the store as a map exactly unless the store's own write failed; the file keeps its content until the change is written, and then holds what memory was restored to, or the change when the undo could not be written, so a file that agreed with memory is kept as a map exactly unless that undo failed |
| Awg3Runs.UndoRestores | internal/api/awg3_endpoints.go:258-261 | undoing a refused change restores the list: in place for import and rename, up to order for delete |
| Awg3Runs.DeleteUndoesImport | internal/api/awg3_endpoints.go:203-216 | deleting what was just imported gives the list of before, with file and slot in line with it |
| Awg3Runs.RenameBack | internal/api/awg3_endpoints.go:328-337 | so does renaming back |
| Awg3Runs.ForeignTagsRespected | internal/api/awg3_endpoints.go:304-310 | with a working lister no request takes over a tag the lister returns |
| Awg3Runs.ForeignTagsExactly | internal/api/awg3_endpoints.go:348-362 | a request takes over the tag of an existing outbound of another kind exactly when it brings that tag in and the change stays in memory, which a working lister rules out for the tags it returns |
| Awg3Runs.GroundedExactly | internal/api/awg3_endpoints.go:364-388 | from a grounded state a request leaves a reference dangling exactly when its change stays in memory and the tag given up is referred to where the guard did not see and carried by no other outbound |
| Awg3Runs.UnreadableConfigDangles | internal/singbox/router/service_outbounds.go:242-249 | an input: a delete succeeds and leaves a reference in an unreadable fakeip slot dangling |
| Awg3Runs.NestedReferenceDangles | internal/singbox/router/config.go:701-711 | an input: with every call succeeding a delete leaves a reference dangling that neither lookup reads |
| Awg3Runs.RunsStaySound | internal/api/awg3_endpoints.go:241-251 | over every run of requests and router edits without a restart stored tags and ids stay distinct, whatever calls fail, and no reference dangles at any time exactly when no request of the run gives up such a tag |
| Awg3Runs.InStepExactly | internal/awg3endpoint/service.go:37-39 | from agreement one request takes file, memory and slot apart exactly when a write of its fails that would have changed something |
| Awg3Runs.RunsStayInStep | cmd/awg-manager/wiring_singbox.go:130-145 | over every run file, memory and slot agree after a success or an accepted projection at boot and until the next such failed write |
| Awg3Runs.RestartExactly | internal/awg3endpoint/store.go:54-66 | after any further router edits a restart leaves no reference dangling exactly when the file names every tag of memory |
| Awg3Runs.LosesTagExactly | internal/awg3endpoint/store.go:81-129 | from agreement one request leaves memory with a tag the file lacks exactly when the write of a changed import or rename fails, or that of the undo of a changed delete or rename |
| Awg3Runs.RunsStayGrounded | internal/api/awg3_endpoints.go:241-251 | over every run, restarts included, in which no request gives up a tag referred to unseen and no such write fails between the last list that reached the file and a restart, no reference dangles and no tag doubles |
| Awg3Runs.FailedWriteThenRestartDangles | internal/awg3endpoint/store.go:81-89 | an input: a run in which a failed write and a restart leave a dangling reference |
| Awg3Protocol.StepKeeps | internal/api/awg3_endpoints.go:198-216 | every single store call or projection of every interleaved request keeps the invariant that ties stored tags and ids to what unfinished requests may still add |
| Awg3Protocol.TagsStayDistinct | internal/api/awg3_endpoints.go:348-362 | in every interleaved run in which no request overlaps an unfinished one stored tags and ids stay distinct |
| Awg3Protocol.OverlapExactly | internal/api/awg3_endpoints.go:198-204 | after any such run, a request on a record nobody else is at work on leaves all later ones without a doubled tag exactly when it and no unfinished request may both add one tag, one of them without looking |
| Awg3Protocol.ConcurrentImportsDouble | internal/api/awg3_endpoints.go:198-204 | an input: two imports of one tag, both checked before either is added, double it |
| Awg3Protocol.SequentialRequest | internal/api/awg3_endpoints.go:198-219 | the calls of one request, run on their own, leave the store as the whole request does |
| Bits.AndMask | internal/api/server_peers.go:548 | bitwise AND with a mask of high bits subtracts exactly the remainder below it |
| Bits.OrMask | internal/api/server_peers.go:562 | bitwise OR with all bits below a mask rounds up to the last number of the block |
| Subnet.ValidateTunnelIP | internal/api/server_peers.go:538-570 | the check with its byte loop gives the verdict of the check specification, including text that does not parse and mixed address families |
| Subnet.PrefixLengthOfMask | internal/api/server_peers.go:555 | the prefix length of a contiguous mask is read back from its bytes |
| Subnet.InBlock | internal/api/server_peers.go:548-549 | the masked bytes agree exactly when the address lies in the server's block, whose ends are the network and broadcast bytes |
| Subnet.CheckMeaning | internal/api/server_peers.go:549-566 | for every prefix length the check accepts an address exactly when it lies in the block, is not the server, and below /31 is neither network nor broadcast |
| Subnet.VerdictExactly | internal/api/server_peers.go:549-566 | for every prefix length each of the five verdicts has its exact condition in numbers |
| Subnet.VerdictOtherwise | internal/api/server_peers.go:538-548 | text that does not parse is refused, anything else accepted while address or mask of the server are missing, and IPv6 never lies in the subnet |
| ServerPeers.PeerTunnelHostIP | internal/api/server_peers.go:502-518 | the first /32 route names the peer, else its first route if that parses |
| ServerPeers.PeerTunnelIPInUse | internal/api/server_peers.go:524-536 | true exactly when some peer is known by the parsed host address |
| ServerPeers.ServersHandler.SetServerPeerSecret | internal/storage/settings.go:642-656 | memory takes the secret even when the write fails |
| ServerPeers.ServersHandler.DeleteServerPeerSecret | internal/storage/settings.go:659-674 | memory forgets the secret; nothing is written when the server has none |
| ServerPeers.ServersHandler.AddServerPeer | internal/api/server_peers.go:161-205 | add is the request specification on both stores for every combination of failures |
| ServerPeers.ServersHandler.UpdatePeerAllowIPs | internal/ndms/command/wireguard.go:220-261 | the two router calls that replace an address, either of which may fail |
| ServerPeers.ServersHandler.UpdateServerPeer | internal/api/server_peers.go:239-289 | the same for update |
| ServerPeers.ServersHandler.DeleteServerPeer | internal/api/server_peers.go:316-324 | the same for delete |
| ServerPeers.ServersHandler.ToggleServerPeer | internal/api/server_peers.go:357-365 | the same for toggle, which keeps the name by sending it |
| PeerAnswers.NotFoundExactly | internal/api/server_peers.go:239-243 | update, delete and toggle answer so exactly when no listed peer has the key, and change nothing |
| PeerAnswers.HostIPExactly | internal/api/server_peers.go:502-518 | the address a peer is known by is that of its first /32 route, else of its first route if that parses, else none |
| PeerAnswers.AddExactly | internal/api/server_peers.go:161-205 | an add succeeds exactly when the address is written with its bits, accepted and unused and both calls succeed; every other answer has its exact condition |
| PeerAnswers.UpdateExactly | internal/api/server_peers.go:239-289 | the exact condition of each answer of an update, by the request, the listed peer, the stored secret and the calls |
| PeerAnswers.FailedUpdateKeepsSecrets | internal/api/server_peers.go:257-289 | an update that fails touches neither copy of the secrets, unless its save failed: then the file is as it was and memory differs in this peer's address text and description only |
| PeerAnswers.DoneUpdateKeepsKeys | internal/api/server_peers.go:273-289 | a successful one keeps every key and every other secret |
| PeerAnswers.MoveExactly | internal/ndms/command/wireguard.go:220-261 | which routes a peer has after the two calls, whichever of them fails |
| PeerAnswers.WithoutRouteExactly | internal/ndms/command/wireguard.go:220-261 | the routes other than the dropped one stay, in order |
| PeerAnswers.ToggleExactly | internal/api/server_peers.go:357-365 | a successful toggle sets the requested flag on that peer and leaves all else alone |
| PeerAnswers.DeleteExactly | internal/api/server_peers.go:316-324 | a delete succeeds exactly when the router call does, and leaves the peers with other keys, in order |
| PeerRuns.AddAllOrNothing | internal/api/server_peers.go:186-205 | a successful add lists one peer on an accepted, unused address with its secret in memory and in the file; a refused one lists nothing and leaves a secret in memory exactly after a failed save, in the file exactly after a failed undo, and every other secret as it was or as memory had it |
| PeerRuns.StrandedSecretSaved | internal/storage/settings.go:654-655 | the secret of an add whose save failed is written by the next save that succeeds |
| PeerRuns.DeleteUndoesAdd | internal/api/server_peers.go:316-324 | deleting a peer just added gives peers and secrets of before, the file agreeing with memory |
| PeerRuns.DeleteForgets | internal/api/server_peers.go:320-324 | a deleted peer is gone from the router and from memory, all others stay, and the file takes over memory exactly unless its write failed or memory was empty |
| PeerRuns.UpdateReconciles | internal/api/server_peers.go:245-289 | after a successful update the peer is known by the requested address exactly unless it is shadowed, named as requested up to trimming exactly unless the comment was lost, and the secret in memory equals the request; everything else is untouched |
| PeerRuns.UpdateReachesDisk | internal/api/server_peers.go:273-289 | the file agrees with the request too exactly when something was left to write or it agreed before |
| PeerRuns.RetryAfterFailedSaveWritesNothing | internal/api/server_peers.go:268-284 | repeating an update whose save failed succeeds and leaves the old secret in the file |
| PeerRuns.BareSlashIsStored | internal/api/server_peers.go:245-246 | an input: a peer without address accepts and stores the text "/32" |
| PeerRuns.StoredTextNamesNone | internal/api/server_peers.go:273-278 | a stored text that names an address stops naming one through a successful update exactly when the request's text is "/32" |
| PeerRuns.StoredTextMatchesPeer | internal/api/server_peers.go:268-289 | after a successful update stored text and listed peer agree on the address exactly if they agreed before and the text was left alone, or a new one is not shadowed |
| PeerRuns.ShadowedWitness | internal/api/server_peers.go:502-510 | an input: the second /32 route of a peer hides the address just put |
| PeerRuns.CommentLostWitness | internal/ndms/command/wireguard.go:181-183 | an input: moving a named peer leaves it nameless on a wiping router |
| PeerRuns.NeverShadowed | internal/ndms/command/wireguard.go:219-261 | in runs of this handler from an empty server no address is ever shadowed |
| PeerRuns.UpdatePlacedExactly | internal/api/server_peers.go:245-261 | an update keeps every peer on one accepted, unshared host route exactly unless it puts an address another peer has or fails between taking the old one away and putting the new |
| PeerRuns.RunsStayPlaced | internal/api/server_peers.go:161-168 | adds, deletes, toggles and such updates keep every peer on one accepted host route and addresses distinct |
| PeerRuns.PeersFitSubnet | internal/api/server_peers.go:538-570 | from an empty server such runs hold at most 2^(32-p) - 3 peers with distinct addresses |
| PeerProtocol.StepInv | internal/api/server_peers.go:186-205 | every single call of every interleaved request, crash, and peer edited, added or removed by others keeps the invariant that ties stored keys, listed peers and unfinished requests |
| PeerProtocol.PrivateKeysNeverLost | internal/api/server_peers.go:186-191 | at every point of every interleaved run with crashes each listed peer this program added has its private key in memory and in the file |
| PeerProtocol.AddressesStayDistinct | internal/api/server_peers.go:161-205 | in every interleaved run with crashes in which no add starts on the address of another unfinished one, all listed addresses are distinct |
| PeerProtocol.OverlapCollides | internal/api/server_peers.go:165-168 | from any state, an add that starts on the address of another unfinished one can go on to a collision |
| PeerProtocol.OverlapExactly | internal/api/server_peers.go:165-205 | after any such run an add leaves all later ones free of collisions exactly when no other unfinished add holds its address |
| PeerProtocol.ConcurrentAddsCollide | internal/api/server_peers.go:165-168 | an input: an interleaving in which two adds share one address |
| PeerProtocol.SequentialAdd | internal/api/server_peers.go:186-205 | the calls of one add, run on their own, leave peers and secrets as the whole request does |
| PeerProtocol.SequentialDelete | internal/api/server_peers.go:316-324 | the same for delete |
| PeerProtocol.SequentialReconcile | internal/api/server_peers.go:273-289 | the same for the calls of an update that touch the secrets |
| Base64.Base64URLDecode | internal/amneziacp/vpnlink_decode.go:36-47 | the step-by-step decoder returns the bytes for every output of the encoders, with any white space around it, and on any input what trimming, alphabet, padding and decoding compose to |
| Base64.UrlDecodeInvertsEncoders | internal/amneziacp/vpnlink_decode.go:36-47 | it inverts the standard and URL-safe encoders, padded or not and in any white space, for every byte string (sections 4 and 5 of RFC 4648) |
| Base64.DigitsExactly | internal/amneziacp/vpnlink_decode.go:36-47 | the digits are those of the table of section 4 of RFC 4648 and nothing else is one; the other table swaps the last two (section 5) |
| Base64.Vectors | internal/amneziacp/vpnlink_decode.go:36-47 | examples of section 10 of RFC 4648 |
| Base64.AcceptedExactly | internal/amneziacp/vpnlink_decode.go:36-47 | text without line ends decodes exactly when it consists of whole groups of digits, of which only the last may be padded, by one or two characters |
| Base64.NewLineIgnored | internal/amneziacp/vpnlink_decode.go:36-47 | a line end anywhere makes no difference |
| Base64.ValidKeyShape | internal/api/managed.go:175-181 | the valid keys are exactly 43 alphabet characters followed by '=' |
| Base64.EncodedKeyValid | internal/api/managed.go:175-181 | every 32-byte key encodes to 44 characters with one '=', passes the check and decodes back |
| RoutePath.SplitPath | internal/api/managed.go:315-337 | the loop is the specification: decoded segments, refused when one is empty, malformed or a dot segment |
| RoutePath.UnescapeInverts | internal/api/managed.go:327 | percent-decoding inverts every percent-encoding, high digit first and in either case, and whatever decodes without a slash is one |
| RoutePath.HexValueExactly | internal/api/managed.go:327 | the digits read are those of the two tables, with their values, and no others |
| RoutePath.UnescapeInvertsEncoder | internal/api/managed.go:327 | whatever bytes an encoder escapes, in digits of either case, at least percent signs and slashes, its text decodes back |
| RoutePath.SplitInvertsEncoding | internal/api/managed.go:315-337 | any encoding of any admissible segments, slashes inside included, splits back into them |
| RoutePath.SplitInvertsEncoder | internal/api/managed.go:315-337 | segments written by such an encoder and joined by slashes split back into themselves |
| RoutePath.WithoutPrefixWhole | internal/api/managed.go:316 | a path without the prefix is split as a whole |
| RoutePath.AcceptedIsEncoding | internal/api/managed.go:309-312 | every accepted path is, after its prefix and up to slashes at the ends, such an encoding, without empty or dot segments |
| RoutePath.PeerRouteKey | internal/api/server_peers.go:90-94 | however a client encodes a peer's key, the route yields the key and decoding it again changes nothing |
| TunnelLabels.LabelMeaning | cmd/awg-manager/awg_outbounds_adapters.go:297-331 | a tag's label is that of the last enabled subscription active on it, else of the first enabled one listing it, else none |
| TunnelLabels.LabelUnique | cmd/awg-manager/awg_outbounds_adapters.go:309-330 | at most one subscription qualifies |
| TunnelLabels.FoldOne | cmd/awg-manager/awg_outbounds_adapters.go:301-330 | one subscription takes over its active tag, and its listed tags only where they are free; the last member of a tag is kept |
| TunnelLabels.ListTunnels | cmd/awg-manager/awg_outbounds_adapters.go:261-389 | the whole listing: backed rows, runtime rows, fill-in |
| TunnelLabels.RuntimeRowsOnce | cmd/awg-manager/awg_outbounds_adapters.go:337-358 | every runtime row's tag is active, occurs in no other row, and has no interface; backed rows come first |
| TunnelLabels.EveryActiveTagShown | cmd/awg-manager/awg_outbounds_adapters.go:333-336 | every active non-empty tag is shown |
| TunnelLabels.FillInKeeps | cmd/awg-manager/awg_outbounds_adapters.go:359-387 | the fill-in overwrites no detail that was there |
| TunnelRows.CaptionExactly | cmd/awg-manager/awg_outbounds_adapters.go:302-308 | a label is the trimmed title if that has any text, else the selector's tag, else the active member's |
| TunnelRows.BackedInOrder | cmd/awg-manager/awg_outbounds_adapters.go:276-296 | the backed rows are, in order, those of exactly the tunnels with tag and interface, field by field |
| TunnelRows.DetailsExactly | cmd/awg-manager/awg_outbounds_adapters.go:283-287 | details are remembered of the last such tunnel with the tag |
| TunnelRows.MemberExactly | cmd/awg-manager/awg_outbounds_adapters.go:321-326 | the member remembered for a tag is the last one, counting enabled subscriptions only |
| TunnelRows.PlainInOrder | cmd/awg-manager/awg_outbounds_adapters.go:276-358 | before the fill-in: the backed rows, then one row for each active tag at its first occurrence, unless shown already, in order |
| TunnelRows.RuntimeRowExactly | cmd/awg-manager/awg_outbounds_adapters.go:338-356 | a runtime row has its tag's label if that is not empty, else the tag, as its name, and the details of the last member |
| TunnelRows.EnrichedExactly | cmd/awg-manager/awg_outbounds_adapters.go:359-364 | a row is marked exactly when an enabled subscription is active on its tag or lists it, and left alone otherwise |
| TunnelRows.MemberCompletes | cmd/awg-manager/awg_outbounds_adapters.go:365-374 | each empty detail of a marked row is taken from the last member with the tag |
| TunnelRows.TunnelCompletes | cmd/awg-manager/awg_outbounds_adapters.go:375-385 | without such a member it is taken from the last backed tunnel with the tag, or stays empty |
| ExcludedTunnels.Normalize | internal/api/settings.go:730-748 | distinct ids, exactly the trimmed non-empty ones |
| ExcludedTunnels.EqualExcluded | internal/api/settings.go:719-728 | true exactly when both lists name the same set of ids |
| Text.SortedArrangementUnique | internal/api/settings.go:725-727 | two sorted lists with the same elements are equal |
| Text.LeqExactly | internal/api/settings.go:725-727 | one text comes before another when it is a beginning of it or smaller where they first differ |
| Text.TrimSpaceCuts | internal/api/settings.go:735 | trimming takes off exactly the white space around a text that has none at its ends |
| Text.TrimSpaceParts | internal/api/settings.go:735 | every text is such a text with white space around it |
| AccessPolicies.FindSlot | internal/accesspolicy/impl.go:198-214 | the least free slot name, which is accepted by Delete; none exactly when all 64 are taken |
| AccessPolicies.DecimalInjective | internal/accesspolicy/impl.go:206 | different numbers print differently |
| AccessPolicies.ReadsBack | internal/accesspolicy/impl.go:206 | the digits printed, read in base ten, give the number back |
| AccessPolicies.FewPoliciesLeaveASlot | internal/accesspolicy/impl.go:203-214 | with fewer than 64 policies a slot is free |
| AccessPolicies.StandardNames | internal/accesspolicy/impl.go:650-663 | of the accepted names exactly the unpadded ones are slot names |
| AccessPolicies.PaddedNameAccepted | internal/accesspolicy/impl.go:650-663 | an input: "Policy00" is accepted and is no slot name |
| Hotspot.ParseHotspotPolicies | internal/accesspolicy/impl.go:595-635 | the line loop with its early exit is the recursive specification |
| Hotspot.ParseInvertsRendering | internal/accesspolicy/impl.go:592-594 | any rendering of bindings in a hotspot block, mixed with other lines and surrounded by any text, parses back to the host-to-policy map |
| Hotspot.ListDevices | internal/accesspolicy/impl.go:378-421 | one device per host, in order, with the host's own policy if it reports one, else the one the running config binds its MAC to, else none |
| Hotspot.CountDevicesPerPolicy | internal/accesspolicy/impl.go:571-589 | the counts of first occurrences for every policy, none for devices without policy |
| Hotspot.CountFirstExactly | internal/accesspolicy/impl.go:571-589 | each count is the number of hosts with the policy, each MAC taken at its first occurrence |
| Hotspot.CountsSumToBound | internal/accesspolicy/impl.go:558-590 | with distinct MACs each count is the number of listed devices with the policy, and the counts add up to the bound devices |
| WanStability.StableFromRunStart | cmd/awg-manager/boot.go:146-154 | only the start of the current unbroken run decides stability |
| WanStability.WaitStable | cmd/awg-manager/boot.go:127-170 | the wait ends at the very first poll that is a shutdown, completes a 5 s run of one gateway or lies past the deadline, with the matching verdict, and terminates |
| ServerList.FilterServers | internal/api/servers.go:249-286 | exactly the shown servers, in order |
| ServerList.FilteredInOrder | internal/api/servers.go:249-286 | the shown servers stand at increasing positions: those built in or marked that are managed in neither other way, and no others |
| ServerList.FillServer | internal/api/servers.go:299-317 | the cached slice is kept when nothing is to fill in, else a fresh filled copy; nothing existing is modified |
| ServerList.ListServers | internal/api/servers.go:294-320 | the filtered servers in order, each on its cached slice exactly when nothing is to fill in and else on a fresh copy, with every cached slice unchanged |
| InterfaceRefs.DedupeRefs | cmd/awg-manager/ndms_adapters.go:162-176 | distinct ids covering the input, server exactly when some occurrence is, in the order FirstIdsInOrder describes |
| InterfaceRefs.FirstIdsInOrder | cmd/awg-manager/ndms_adapters.go:165-173 | the ids come in the order of the positions at which each occurs for the first time |
| InterfaceRefs.RunningInterfaces | cmd/awg-manager/ndms_adapters.go:104-153 | one reference per running tunnel or server, a server reference exactly for the latter |
| InterfaceRefs.UpExactly | cmd/awg-manager/ndms_adapters.go:104-153 | of several reports of an interface the last one decides whether it is up |
| InboundTags.DuplicateTagWarnings | internal/api/singbox_inbounds.go:192-212 | one warning per repeated tag, naming all its slots in order |
| InboundTags.RepeatedTwice | internal/api/singbox_inbounds.go:200-202 | exactly the non-empty tags that occur at least twice are repeated, each once |
| InboundTags.RepeatedInOrder | internal/api/singbox_inbounds.go:200-202 | warnings come in the order of second occurrences |
| InboundTags.SlotsInOrder | internal/api/singbox_inbounds.go:192-199 | the slots named are those of exactly the entries with the tag, in order |
| InboundTags.JoinedConcat | internal/api/singbox_inbounds.go:203-212 | slots are listed with commas between them |
| InboundTags.DisplayConcat | internal/api/singbox_inbounds.go:203-212 | the last one follows a conjunction |

## Left out

- HTTP, JSON, zlib, logging and event layers: requests enter as decoded values, answers leave as an enumeration.
- Contents of errors, except where the cache stores and repeats them; a download error is assumed to have a text and a download not to panic.
- Clock jumps: the geosite clock is monotone, as Go's is; the zero time lies before every pause.
- Scheduling fairness: no caller is stuck, but nothing is said about how soon it runs.
- Requests run one at a time in `Awg3Runs` and in `PeerRuns`; interleaving is modelled for the geosite cache, for stored AWG3 tags, and for private keys and addresses of peers.
- Awg3Protocol.OverlapExactly: requests at work on one record at the same time are excluded; tags the lister returns, which only refuse more requests, and renames to the tag a record has are not modelled there.
- Whether the validating write notices a dangling reference in an enabled slot is part of its outcome, a success or a failure.
- The store file of AWG3 endpoints is assumed readable when the process starts; the settings are assumed loaded.
- The validating write of the config slot and the router calls are successes or failures; a failed call is assumed to have changed nothing, and an added route to go to the end.
- Generated ids and keys are assumed new.
- The character class of tags (letters and numbers) and the lower-casing of MACs are parameters.
- Text of addresses: allowed-ips and tunnel addresses enter parsed, with the spelling kept only as far as the comparison of texts needs it.
- Subnet.CheckMeaning: non-contiguous masks and IPv6 servers go through the check as in the code, but what it means for them is not stated.
- PeerProtocol.AddressesStayDistinct: an update's change of address is a router edit there, which these runs exclude, as what the router does with an edit of a peer deleted meanwhile is not part of this model; `PeerRuns.UpdatePlacedExactly` treats it with requests one at a time.
- Secrets of other servers in the same settings file, the backup file and the reload after corruption.
- PeerProtocol.PrivateKeysNeverLost: covers peers this program added with a new key; a peer created on the router by other means has no stored key to lose.
- ServerPeers.Update in `PeerProtocol`: the router part of an update is a step of its own that may edit any listed peer but not its key.
- WanStability.WaitStable: successive polls are assumed at least a second apart, which the timer in front of each guarantees.
- `attribute`, `markIdle`, `collect` and `routedInboundTags` of the inbound mirror: assignments of fields without interplay.
- `ServerPeerConf`, the endpoint setter and the other routes of the servers handler: text generation and field copying.
- Listener management, the slot editor, login throttling, hooks and tunnel control: their state lives in packages that are not part of this model.
