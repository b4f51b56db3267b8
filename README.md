# evilginx2 control plane, proxy host rewriting and supporting units, in Dafny

This project models the core of the evilginx2 fork's split architecture.
It covers two services:

- **The control service.** It keeps the campaigns ("phishlets"), the captured sessions and a time-limited IP whitelist. It answers the proxy's host lookups.
- **The proxy's host rewriting.** It maps a front host to the origin host and back, using the control plane's answers. The model also covers the order in which `handleRequest` makes its decisions.

Around them sit the smaller units, each modelled sequentially:

- the IP blacklist;
- input validation and sanitisation;
- the typed configuration map;
- the condition evaluator;
- the key-value store's key scheme, filters and pagination;
- the session-expiry sweeper;
- phishlet version publishing and flow-step tracking;
- the bridge to the legacy session database.

How outside effects are modelled:

- Objects whose fields the source updates in place are classes with `modifies` clauses: `ControlService`, `Blacklist`, `Manager`, `Store`, `SessionCleanup` and `PhishletRepository`.
- Loops that update variables are methods, proved against specification functions.
- Time is an explicit `now`: nanoseconds for `time.Time` values, Unix seconds for the whitelist.
- Remote calls, regular expressions, `time.ParseDuration` and the IPv6 text syntax are function parameters.
- A storage write that can fail is a parameter carrying the error it would report.

Modules, one per file:

- `Wrappers`: `Option` and `Result`.
- `Strings`: the Go `strings` functions used, on `seq<char>`, one char per byte.
- `Maps`: the key-by-key merge loop.
- `Models`: the records of `pkg/models`.
- `Net`: IPv4 as 32-bit naturals, CIDR containment, RFC 1918 private ranges. IPv6 is abstract.
- `Control`, `Proxy`, `Blacklist`, `Validation`, `Config`, `Conditions`, `Storage`, `Cleanup`, `Versioning`, `Legacy`: the ten core files.

Three behaviours of the code that are easy to misread; the model follows the code:

- `GetSessionStats` starts its minimum search from `now`. So `oldest_session` is the smaller of `now` and the earliest `CreatedAt`, not the earliest `CreatedAt` alone.
- The `hostname` and `path` condition types fall back to the regular expression when no listed value matches, like `email_domain` and `user_agent`.
- `UpdateFlowSession` in the phishlet repository re-saves through `CreateFlowSession`, so `CreatedAt` is reset on every step.

## Model

| member | source | states |
|---|---|---|
| Models.CombineHost | internal/control/service.go:297-302 | an empty subdomain gives the domain itself and nothing else does |
| Models.CombineHostStartsWithSubdomain | internal/control/service.go:297-302 | a non-empty subdomain gives the subdomain, a dot and the domain, so the host starts with the subdomain and a dot |
| Models.CombineHostEndsWithDomain | internal/control/service.go:297-302 | the combined host always ends with the domain |
| Models.CombineHostInjective | internal/proxy/service.go:338-343 | for a fixed domain, different subdomains give different hosts |
| Control.PhishletsByNameFiled | internal/control/service.go:240-255 | after loading, every campaign is filed under its own name and every listed campaign has an entry |
| Control.WhitelistKeyInjective | internal/control/service.go:192 | `ip + "-" + name` identifies the pair when the IP has no `-` |
| Control.ApplyUpdate | internal/control/service.go:154-176 | non-empty user name and password overwrite; the three string maps are merged key by key, request keys winning and all other keys kept; the update time is `now`; no other field changes |
| Control.ControlService.constructor | internal/control/service.go:31-40 | all four tables start empty |
| Control.ConvertPhishletToProto | internal/control/service.go:274-295 | the message carries the campaign's name, author, redirect URL and template flag, and every proxy host with all six of its fields, in order |
| Control.ProtoIgnoresUnsentFields | internal/control/service.go:274-295 | the hostname, enabled flag, version and time stamps are not sent: campaigns that differ only in those give the same message |
| Control.ControlService.GetPhishletByHost | internal/control/service.go:61-90 | the reply is "found" exactly when some enabled campaign has a proxy host whose phish host, or origin host, equals the hostname. When found, it carries that campaign's hostname, the matched host's phish subdomain and the campaign's proto form. Which match comes back is left open, as with Go map order |
| Control.ControlService.ValidateSession | internal/control/service.go:92-110 | true exactly when some enabled campaign has a phish host equal to the hostname |
| Control.ControlService.CreateSession | internal/control/service.go:112-140 | on a successful store, the session is filed under its id with empty maps, active, created and updated now. On a failed store, the reply is a failure and the table is unchanged. The other tables never change |
| Control.ControlService.UpdateSession | internal/control/service.go:142-186 | an unknown id gives "session not found" and changes nothing. Otherwise the in-memory session becomes the merged update. A failed store still keeps the in-memory change but replies with a failure |
| Control.ControlService.IsWhitelistedIP | internal/control/service.go:188-202 | true exactly when an entry exists and `now` is before its expiry. An expired entry is removed from both the expiry and the session-id tables. Nothing else changes |
| Control.ControlService.GetSessionIdByIP | internal/control/service.go:204-225 | not found when the hostname does not resolve as a phish host. A found id is the one recorded for the IP and a resolving campaign, with no expiry check. It is found whenever every resolving campaign has an entry |
| Control.ControlService.WhitelistIP | internal/control/service.go:227-238 | sets the expiry to `now + 600` and the session id for the key; always succeeds |
| Control.ControlService.LoadPhishlets | internal/control/service.go:240-255 | a listing error is returned and nothing changes; otherwise the listed campaigns are added or replaced by name, none removed |
| Control.ControlService.LoadSessions | internal/control/service.go:257-272 | the same for sessions, by id |
| Control.WhitelistScenario | internal/control/service.go:188-238 | whitelisted at `t`, an IP is admitted at `t + 599` and refused at `t + 600`, after which both entries are gone |
| Control.CreateThenUpdateScenario | internal/control/service.go:112-186 | a created session updated with only a user name keeps empty captured maps |
| Control.AdmissionAgreesWithResolution | internal/control/service.go:61-110 | a front host is found by `GetPhishletByHost` exactly when `ValidateSession` admits it |
| Control.DisablingWithdrawsCampaign | internal/control/service.go:65-68 | after disabling a campaign, a host resolves only if another campaign serves it |
| Proxy.HostWithoutPort | internal/proxy/service.go:192-195 | the prefix of the host before its first `:`, the whole host when there is none |
| Proxy.SplitDot | internal/proxy/service.go:280-284 | splits off one leading `.` exactly when there is one |
| Proxy.FirstFront | internal/proxy/service.go:294-298 | the first proxy host, in list order, whose phish host equals the hostname |
| Proxy.FirstBack | internal/proxy/service.go:322-329 | the first proxy host whose origin host or bare domain equals the hostname |
| Proxy.ToOriginal | internal/proxy/service.go:275-301 | when no rewrite happens, the result is the input without its leading `.` (the dot is not restored) and "not replaced". A rewrite keeps the stripped prefix |
| Proxy.ToPhished | internal/proxy/service.go:303-332 | the same for the reverse direction |
| Proxy.ReplaceHostWithOriginal | internal/proxy/service.go:275-301 | the search loop computes `ToOriginal` |
| Proxy.ReplaceHostWithPhished | internal/proxy/service.go:303-332 | the search loop computes `ToPhished`, with the bare-domain match inside the same loop |
| Proxy.ToOriginalResolves | internal/proxy/service.go:286-298 | the front host is rewritten exactly when some enabled campaign serves it. The rewrite is the prefix plus the origin host of that campaign's first matching proxy host |
| Proxy.ReverseAnswer | internal/proxy/service.go:314-329 | under one-to-one mappings, the reverse lookup of an origin host lands on a live proxy host with that origin host, found first in its list |
| Proxy.ToPhishedOfOrigin | internal/proxy/service.go:322-329 | under one-to-one mappings, the origin host of a live proxy host, with or without a leading dot, is rewritten to its phish host |
| Proxy.FirstBackAt | internal/proxy/service.go:322-329 | the first matching index is the one that no earlier host matches |
| Proxy.RoundTrip | internal/proxy/service.go:294-329 | under one-to-one mappings with no earlier bare-domain match, `phished(original(h)) == (h, true)` |
| Proxy.AcmeToOriginal | internal/proxy/service.go:294-298 | with hosts `www`/`login` over `acme.com`, `login.p.test` maps to `acme.com` |
| Proxy.AcmeToPhished | internal/proxy/service.go:326-327 | `acme.com` maps to the bare front domain `p.test` |
| Proxy.BareDomainBreaksRoundTrip | internal/proxy/service.go:294-329 | so the round trip of `login.p.test` fails for those hosts |
| Proxy.Request.constructor | internal/proxy/service.go:192 | a request with its host and URL host |
| Proxy.HandleRequest | internal/proxy/service.go:178-225 | a filter block (403) comes first, then an evasion block (404 with the decoy), then the front-host check (404). A verdict that failed lets the request through. A blocked request is unchanged; an admitted one has both hosts rewritten exactly when `ToOriginal` replaces |
| Proxy.AdmittedRequestsAreRewritten | internal/proxy/service.go:197-222 | a host the control plane admits resolves to an enabled campaign, and the proxy rewrites it |
| Blacklist.CleanLine | core/blacklist.go:44-49 | the line up to its first `;`, trimmed of spaces only |
| Blacklist.LoadedMasksFromLines | core/blacklist.go:52-58 | every loaded network comes from a line containing `/` that parses as CIDR; no more networks than lines |
| Blacklist.LoadedIpsFromLines | core/blacklist.go:59-65 | every loaded address is keyed by its canonical text and comes from a line without `/` |
| Blacklist.LoadedIpsComplete | core/blacklist.go:59-65 | every parseable address line is loaded |
| Blacklist.LineAddressMeaning | core/blacklist.go:59-62 | an address line has no `/`, parses, and is keyed by its canonical text |
| Blacklist.Blacklist.constructor | core/blacklist.go:27-72 | the scanner loop builds exactly the addresses and networks of the lines |
| Blacklist.Blacklist.LoadLine | core/blacklist.go:44-67 | one line adds its canonical address or appends its network, as the line's cleaned text says, and nothing else |
| Blacklist.CommentCut | core/blacklist.go:46-49 | the loop's cut at the first `;` and trim are exactly `CleanLine` |
| Blacklist.Blacklist.GetStats | core/blacklist.go:74-76 | the number of addresses and of networks |
| Blacklist.Blacklist.IsBlacklisted | core/blacklist.go:110-132 | false for empty or unparseable input. Otherwise true exactly when the raw text is a key, or some network contains the address (section 3.1 of RFC 4632) |
| Blacklist.Blacklist.AddIP | core/blacklist.go:78-108 | the networks never change. Empty input is an error. A listed address is accepted unchanged. Unparseable input is an error with no change. Otherwise exactly the canonical key is added and the file-append outcome is reported |
| Blacklist.IsWhitelisted | core/blacklist.go:142-161 | true only for parseable input |
| Blacklist.ParsedIPv4IsCanonical | core/blacklist.go:123 | dotted-quad text that parses is its own canonical form |
| Blacklist.PrivateIPv4Whitelisted | core/blacklist.go:152-158 | every loopback or RFC 1918 private IPv4 address is whitelisted |
| Blacklist.WhitelistedIPv4 | core/blacklist.go:142-161 | for text parsing as an IPv4 address: whitelisted exactly when the address is in 127.0.0.0/8 or an RFC 1918 range, or the text is `::1`. The literal `127.0.0.1` is itself such an address |
| Blacklist.WhitelistedIPv6 | core/blacklist.go:142-161 | for text parsing as an IPv6 address: whitelisted exactly when the text is `::1`, the address is `::1`, or it lies in `fc00::/7` (section 3.1 of RFC 4193) |
| Blacklist.ParseLoopbackText | core/blacklist.go:152 | the literal `127.0.0.1` parses to the IPv4 loopback address 127.0.0.1 |
| Blacklist.PublicNotWhitelisted | core/blacklist.go:156-160 | an example: `8.8.8.8` is not whitelisted |
| Blacklist.AddIPv4ThenListed | core/blacklist.go:93-125 | after `AddIP` of any dotted-quad address, the address is blacklisted |
| Net.ParseFormatIPv4 | core/blacklist.go:60-62 | formatting an IPv4 address and parsing it back gives the same address |
| Net.FormatParseIPv4 | core/blacklist.go:62 | parsed dotted-quad text formats back to the same text |
| Net.V4NetContains | core/blacklist.go:127 | an IPv4 network contains exactly the addresses that share its first `prefix` bits |
| Validation.LabelsValidIsGrammar | internal/utils/validation.go:11-24 | the executable label check equals the RFC 1123 hostname grammar |
| Validation.ValidateHostname | internal/utils/validation.go:15-29 | accepts exactly non-empty hostnames of at most 253 bytes in that grammar. The empty input gets its own message |
| Validation.ValidateIPAddress | internal/utils/validation.go:31-41 | accepts exactly non-empty text that parses as an address |
| Validation.DottedDecimalValid | internal/utils/validation.go:31-41 | every formatted IPv4 address is accepted |
| Validation.EmailShapeIsGrammar | internal/utils/validation.go:12 | the executable shape check equals the e-mail pattern: local part, `@`, domain, `.`, at least two letters |
| Validation.ValidateEmail | internal/utils/validation.go:43-57 | accepts exactly non-empty addresses of at most 254 bytes of that shape. It gives the empty-input and the format messages |
| Validation.ValidateEmailGrammar | internal/utils/validation.go:43-57 | acceptance stated against the pattern itself |
| Validation.OnlyOneAt | internal/utils/validation.go:12 | an address of the pattern's shape has exactly one `@` |
| Validation.EndsWithLetters | internal/utils/validation.go:12 | and ends with `.` and at least two ASCII letters |
| Validation.AcceptedEmailShape | internal/utils/validation.go:43-57 | every accepted address has one `@` and ends with a dot and two or more letters |
| Validation.ValidateRegexPattern | internal/utils/validation.go:73-88 | rejects empty and over-1000-byte patterns before compiling; otherwise accepts exactly what compiles |
| Validation.SanitizeString | internal/utils/validation.go:59-71 | the output is at most `maxLength` bytes and has no NUL, CR or LF |
| Validation.SanitizeKeepsCleanInput | internal/utils/validation.go:59-71 | short, trimmed, clean input comes back unchanged |
| Validation.SanitizeNotIdempotent | internal/utils/validation.go:59-71 | for any short clean text `s`, `s` followed by LF and NUL becomes `s` and a space, which becomes `s` on a second pass |
| Config.Atoi | internal/config/manager.go:88 | a parsed value is in the 64-bit range; empty text does not parse |
| Config.ParseBool | internal/config/manager.go:104 | exactly `strconv.ParseBool`'s true and false spellings |
| Config.EnvInt | internal/config/manager.go:86-93 | the default when the variable is unset or not an integer, else its value |
| Config.EnvString | internal/config/manager.go:95-100 | the default when unset or empty, else the variable |
| Config.EnvBool | internal/config/manager.go:102-109 | the default unless the variable parses as a boolean |
| Config.EnvDuration | internal/config/manager.go:111-126 | a set variable that parses gives its duration. An unset or unparseable variable gives the default text's duration when that parses, and 30 minutes otherwise. All three cases are stated for any duration parser |
| Config.EnvConfig | internal/config/manager.go:22-34 | exactly the eight keys |
| Config.EmptyEnvGivesDefaults | internal/config/manager.go:22-34 | with no variables set, the eight keys get their stated defaults |
| Config.AtoiFormatInt | internal/config/manager.go:88 | a 64-bit integer's text parses back to it |
| Config.Manager.constructor | internal/config/manager.go:16-20 | an empty map |
| Config.Manager.Get | internal/config/manager.go:36-41 | the stored value, or nil when absent |
| Config.Manager.Set | internal/config/manager.go:43-48 | exactly the one key changes |
| Config.Manager.GetInt | internal/config/manager.go:50-57 | the stored integer, else the default (absent key or another type) |
| Config.Manager.GetString | internal/config/manager.go:59-66 | the same for strings |
| Config.Manager.GetBool | internal/config/manager.go:68-75 | the same for booleans |
| Config.Manager.GetDuration | internal/config/manager.go:77-84 | the same for durations |
| Config.Manager.LoadFromEnv | internal/config/manager.go:22-34 | the eight keys are set from the environment; other keys are kept |
| Config.Manager.Validate | internal/config/manager.go:128-150 | succeeds exactly when both ports are in 1..65535, the rate limit in 1..10000 and the session limit in 1..100000. A bad HTTPS port is reported before a bad DNS port |
| Config.Manager.GetAll | internal/config/manager.go:152-162 | the copy loop returns a map equal to the configuration |
| Config.NewManagerValidates | internal/config/manager.go:128-150 | an empty manager validates, because every default is in range |
| Config.DefaultsValidate | internal/config/manager.go:22-34 | the environment defaults validate; the timeout is 30 minutes and the log level `info` |
| Config.SetThenGet | internal/config/manager.go:152-162 | after `Set`, `Get` returns the value, other keys are unchanged, and an earlier `GetAll` copy is unaffected |
| Config.LoadDefaultsAndValidate | internal/config/manager.go:16-34 | a new manager loaded from an empty environment holds the defaults and validates |
| Conditions.FirstWhere | internal/phishlet/conditions.go:109-113 | the first index satisfying the test, or -1 when none does |
| Conditions.ValueOrRegex | internal/phishlet/conditions.go:109-117 | true exactly when some value matches, or no value matches and the regex matches |
| Conditions.EvaluateEmailDomain | internal/phishlet/conditions.go:97-120 | false for an empty address or one that does not split into two parts on `@`. Otherwise the lowercased domain is compared with the lowercased values, then the regex |
| Conditions.EvaluateUserAgent | internal/phishlet/conditions.go:122-140 | false when empty; otherwise a case-insensitive substring test over the values, then the regex |
| Conditions.EvaluateIPGeo | internal/phishlet/conditions.go:142-168 | false for an empty IP and an error for an unparseable one. Otherwise never an error: true exactly when some value equals the provider's country ignoring case, or else the regex matches that country |
| Conditions.EvaluateCustom | internal/phishlet/conditions.go:170-185 | false when the parameters are nil. Otherwise true exactly when some value splits at its first `=` into a key and value that the parameters hold |
| Conditions.EvaluateHostname | internal/phishlet/conditions.go:187-205 | false when empty; otherwise case-insensitive equality with a value, then the regex |
| Conditions.EvaluatePath | internal/phishlet/conditions.go:207-225 | false when empty; otherwise exact equality with a value, then the regex |
| Conditions.DistinctErrors | internal/phishlet/conditions.go:93-149 | the IP error and the unknown-type error can never coincide |
| Conditions.EvaluateCondition | internal/phishlet/conditions.go:78-95 | the type is matched in lower case, and an unknown type is exactly the "unknown condition type" error. |
| Conditions.KnownTypeErrors | internal/phishlet/conditions.go:78-95 | a condition of a known type fails exactly when it is `ip_geo` on a non-empty address that does not parse, and then with the "invalid IP address" error |
| Conditions.EvaluateConditions | internal/phishlet/conditions.go:58-76 | the loop computes the fold `Collected` with `evaluateCondition` as the evaluator; the lemmas below hold for any evaluator, so for this one |
| Conditions.Collected | internal/phishlet/conditions.go:58-76 | the in-order fold of the evaluation loop. A failing last condition makes the whole result an error |
| Conditions.CollectedErrSticks | internal/phishlet/conditions.go:63-65 | once a condition fails, the result is that error |
| Conditions.CollectedAllOk | internal/phishlet/conditions.go:58-76 | a successful result means every condition evaluated without error |
| Conditions.CollectedActions | internal/phishlet/conditions.go:67-72 | an action is in the result exactly when it belongs to a matched condition |
| Conditions.CollectedActionsSound | internal/phishlet/conditions.go:67-72 | every returned action belongs to a condition that matched |
| Conditions.CollectedActionsComplete | internal/phishlet/conditions.go:67-72 | every action of a matched condition is returned |
| Conditions.CollectedError | internal/phishlet/conditions.go:61-65 | an error names the first failing condition, all earlier ones having succeeded |
| Conditions.NoConditions | internal/phishlet/conditions.go:58-76 | no conditions give no actions |
| Conditions.TypeIgnoresCase | internal/phishlet/conditions.go:79 | changing the case of a known type changes nothing |
| Conditions.MockGeoMatchesUS | internal/phishlet/conditions.go:142-168 | the mock provider's `US` matches the value `us` |
| Storage.GenKey | internal/storage/buntdb.go:504-506 | the key is the table name, one `:` and the id, in that order |
| Storage.GenKeyInjective | internal/storage/buntdb.go:504-506 | within one table, the key determines the id |
| Storage.GenKeyTablesApart | internal/storage/buntdb.go:504-506 | keys of different tables never collide |
| Storage.VersionKeyNotInjective | internal/storage/buntdb.go:381 | `("a:b", "c")` and `("a", "b:c")` share a version key |
| Storage.MatchesSessionFilters | internal/storage/buntdb.go:513-527 | an all-empty filter matches every session. A matching session was created within the start and end times that are set, ends included |
| Storage.MatchesPhishletFilters | internal/storage/buntdb.go:529-537 | an all-empty filter matches every campaign. A filter for enabled campaigns matches only enabled ones |
| Storage.TimeWindowInclusive | internal/storage/buntdb.go:513-527 | with only a time window set, a session matches exactly when its creation time is inside the window, ends included |
| Storage.Truncate | internal/storage/buntdb.go:123-125 | a prefix of at most `limit` items, all of them when fewer |
| Storage.SelectedAppend | internal/storage/buntdb.go:115-135 | selection distributes over concatenation of key lists |
| Storage.SelectedMembers | internal/storage/buntdb.go:115-135 | an item is selected exactly when some key in the order picks it |
| Storage.SkipCount | internal/storage/buntdb.go:118-121 | how many raw entries the offset skips: none without a positive offset |
| Storage.PageSound | internal/storage/buntdb.go:112-142 | a page has at most `limit` items when a limit is set, and each comes from a key after the skipped ones |
| Storage.Store.constructor | internal/storage/buntdb.go:26-42 | an empty store |
| Storage.Store.CreateSession | internal/storage/buntdb.go:55-71 | keeps a non-zero creation time and sets it otherwise, always sets the update time, and stores under the session key |
| Storage.Store.GetSession | internal/storage/buntdb.go:73-87 | the stored session, "not found" when absent |
| Storage.Store.UpdateSession | internal/storage/buntdb.go:144-157 | stores the session with the update time set |
| Storage.Store.DeleteSession | internal/storage/buntdb.go:159-165 | removes exactly that key; "not found" when absent |
| Storage.Store.CreatePhishlet | internal/storage/buntdb.go:167-183 | as for sessions, under the campaign key |
| Storage.Store.GetPhishlet | internal/storage/buntdb.go:185-199 | the stored campaign, "not found" when absent |
| Storage.Store.UpdatePhishlet | internal/storage/buntdb.go:234-247 | stores with the update time set |
| Storage.Store.DeletePhishlet | internal/storage/buntdb.go:249-255 | removes exactly that key |
| Storage.Store.GetConfig | internal/storage/buntdb.go:257-281 | with nothing stored, defaults with HTTPS port 443 and DNS port 53 |
| Storage.Store.UpdateConfig | internal/storage/buntdb.go:283-296 | stores under `config:main` with the update time set |
| Storage.Store.CreatePhishletVersion | internal/storage/buntdb.go:374-385 | stores under the version key |
| Storage.Store.GetPhishletVersion | internal/storage/buntdb.go:411-436 | found exactly when a version is stored there; the result carries name and version |
| Storage.Store.CreateFlowSession | internal/storage/buntdb.go:438-449 | stores under the flow key |
| Storage.Store.GetFlowSession | internal/storage/buntdb.go:471-486 | the stored flow session, "not found" when absent |
| Storage.Store.UpdateFlowSession | internal/storage/buntdb.go:451-469 | a missing session is an error and nothing is written. Otherwise the step is set, the data merged (new keys win, others kept) and the update time set |
| Storage.Store.DeleteFlowSession | internal/storage/buntdb.go:488-494 | removes exactly that key |
| Storage.Store.ListSessions | internal/storage/buntdb.go:112-142 | the callback loop returns the page: offset raw entries skipped, then the matching sessions in index order, up to the limit |
| Storage.Store.ListPhishlets | internal/storage/buntdb.go:201-232 | the same for campaigns |
| Storage.Store.ListPhishletVersions | internal/storage/buntdb.go:387-409 | the versions under the name's prefix, in index order |
| Storage.GetAfterCreate | internal/storage/buntdb.go:55-87 | get after create returns the stored session |
| Storage.ListedVersionsUnderPrefix | internal/storage/buntdb.go:391-394 | every listed version comes from a key with the prefix `phishlet_version:<name>:` |
| Storage.CreateThenGet | internal/storage/buntdb.go:55-87 | creating and then reading a session succeeds with its id and the new update time |
| Cleanup.SessionCleanup.constructor | internal/cleanup/session_cleanup.go:26-32 | an empty table with the given timeout |
| Cleanup.SessionCleanup.AddSession | internal/cleanup/session_cleanup.go:58-69 | inserts or overwrites an active entry created and last seen now |
| Cleanup.SessionCleanup.UpdateSession | internal/cleanup/session_cleanup.go:71-78 | only the last-seen time of an existing entry changes; an unknown id is a no-op |
| Cleanup.SessionCleanup.RemoveSession | internal/cleanup/session_cleanup.go:80-85 | only the given id is removed |
| Cleanup.SessionCleanup.CleanupExpiredSessions | internal/cleanup/session_cleanup.go:87-108 | an entry stays exactly when it is not idle for strictly longer than the timeout; survivors are unchanged |
| Cleanup.SessionCleanup.GetActiveSessionCount | internal/cleanup/session_cleanup.go:110-115 | the number of entries |
| Cleanup.SessionCleanup.GetSessionStats | internal/cleanup/session_cleanup.go:117-140 | total is the number of entries. Active counts the active ones and is at most the total (equal under the table's invariant). The oldest is at most `now` and every creation time, and is one of them |
| Cleanup.ActiveIdsBound | internal/cleanup/session_cleanup.go:125-129 | active sessions never outnumber sessions |
| Cleanup.SweepKeepsFreshSession | internal/cleanup/session_cleanup.go:58-108 | a sweep right after a session was added keeps it |
| Versioning.FindVersion | internal/phishlet/versioning.go:65-89 | the first entry with the version, or -1 when none has it |
| Versioning.Hex | internal/phishlet/versioning.go:162 | two lower-case hex digits per byte |
| Versioning.GenerateHash | internal/phishlet/versioning.go:161-163 | eight hex digits, those of the first four bytes |
| Versioning.HexPrefix | internal/phishlet/versioning.go:162 | the hex of a prefix is the prefix of the hex |
| Versioning.PhishletRepository.constructor | internal/phishlet/versioning.go:37-42 | an empty store |
| Versioning.PhishletRepository.ListVersions | internal/phishlet/versioning.go:44-57 | a missing key is an empty list, not an error |
| Versioning.PhishletRepository.GetVersion | internal/phishlet/versioning.go:59-79 | the first entry with the version, else "version not found" |
| Versioning.PhishletRepository.PublishVersion | internal/phishlet/versioning.go:81-111 | a version already present is refused and nothing changes. Otherwise exactly one entry is appended and the earlier ones are kept |
| Versioning.PhishletRepository.CreateFlowSession | internal/phishlet/versioning.go:113-124 | both time stamps are set to now before the write |
| Versioning.PhishletRepository.GetFlowSession | internal/phishlet/versioning.go:146-159 | the stored flow session, "flow session not found" when absent |
| Versioning.PhishletRepository.UpdateFlowSession | internal/phishlet/versioning.go:126-144 | sets the step, merges the data (new keys win, others kept) and re-saves, which resets `CreatedAt` |
| Versioning.PublishedIsFound | internal/phishlet/versioning.go:59-111 | a version published onto a list without it is found again with its author |
| Versioning.UpdateTwice | internal/phishlet/versioning.go:113-144 | after two updates, `CreatedAt` is the second update's time |
| Legacy.MapTokens | internal/bridge/legacy.go:110-118 | every name of a domain is kept, each token converted |
| Legacy.MapNested | internal/bridge/legacy.go:108-152 | no domain or name is added or lost |
| Legacy.CopyCookieTokens | internal/bridge/legacy.go:108-152 | the nested copy loops build exactly `MapNested` of the tokens |
| Legacy.ConvertLegacySession | internal/bridge/legacy.go:107-138 | always active with no redirect URL; the ids carry over; times are whole seconds |
| Legacy.ConvertToLegacySession | internal/bridge/legacy.go:140-170 | the ids carry over |
| Legacy.CookiesRoundTripLegacy | internal/bridge/legacy.go:108-152 | converting cookie tokens from legacy and back is the identity |
| Legacy.CookiesRoundTrip | internal/bridge/legacy.go:108-152 | and the other way round: name, value, path and HttpOnly are all kept |
| Legacy.LegacyRoundTrip | internal/bridge/legacy.go:107-170 | legacy to current and back gives the legacy record unchanged |
| Legacy.CurrentRoundTrip | internal/bridge/legacy.go:121-169 | current to legacy and back keeps everything except `IsActive`, `RedirectURL` and the sub-second part of both times |
| Legacy.MaxIndex | internal/bridge/legacy.go:202-207 | the largest index, 0 for none; at least every index |
| Legacy.GetNextSessionIndex | internal/bridge/legacy.go:196-210 | a listing error gives 1 with the error; otherwise one past the largest index |
| Legacy.NextIndexIsFresh | internal/bridge/legacy.go:196-210 | the next index is positive and used by no session |
| Legacy.CreateSessionFromLegacy | internal/bridge/legacy.go:212-239 | a listing or store error is returned. Otherwise an active session with empty maps and an index above every existing one |
| Legacy.SyncSessionsFromLegacy | internal/bridge/legacy.go:28-43 | a listing error is wrapped. Otherwise every legacy session is converted and written, failures reported, and the loop goes on |
| Legacy.SyncAccountsForAll | internal/bridge/legacy.go:34-40 | every legacy session is either written or reported; with no failures all are written, in order |
| Legacy.LegacyCreateOf | internal/bridge/legacy.go:52-55 | the legacy create call receives the session id and campaign name of the session |
| Legacy.Failures | internal/bridge/legacy.go:54-57 | no more failures than writes |
| Legacy.NoFailures | internal/bridge/legacy.go:54-57 | no warning exactly when every write succeeds |
| Legacy.SyncSessionsToLegacy | internal/bridge/legacy.go:45-61 | a listing error is wrapped. Otherwise every listed session is passed on, in order, and each failure counted |

## Left out

- The stealth engines (traffic filter, evasion engine, URL and content obfuscation, decoy headers) appear only as opaque verdicts and a decoy body in `HandleRequest`. The URL randomisation step leaves the host alone and is not modelled. `handleResponse` only obfuscates bodies and sets headers through those engines, so it is not modelled.
- Transport and I/O are not modelled:
  - TLS and the certificate store: `httpsWorker`, `getCertificate`, `initCertDB`;
  - gRPC dialing and serving: `Start`, `StartGRPCServer`, `Stop`, `initControlConnection`;
  - the goproxy handlers;
  - the blacklist file's opening and appending, which is an outcome parameter of `AddIP`;
  - logging, and `SetVerbose`/`IsVerbose`, which only toggle logging.
- Concurrency is modelled sequentially. The mutexes and goroutines are not modelled, nor is the cleanup ticker (`Start`/`Stop`). `IsWhitelistedIP` deletes map entries while holding only a read lock. That is a data race in the source, and a sequential model cannot show it.
- JSON encoding is not modelled. The store holds typed records, and undecodable text is a `Garbage` or `Text` value; the wording of decode errors is not modelled.
- The buntdb index order is a parameter of the listing methods. Transactions are single map updates.
- Lures (`CreateLure` … `DeleteLure`) are not modelled; they repeat the key discipline of sessions under their own table.
- `GetSessionByIndex` is not modelled. It looks the index up through the `sessions_index` secondary index with a JSON pivot, and that index's matching and JSON comparison are not modelled. It has its own "session not found with index" error.
- `Close` and `Flush` are not modelled. They close and shrink the database file, use no keys and change no records.
- `SyncPhishletsFromLegacy`, `SyncConfigFromLegacy` and `convertLegacyPhishlet` are not modelled. They read the legacy `core.Config`, which is not part of this model.
- The session and campaign filter records (`SessionFilters`, `PhishletFilters`) are defined in internal/storage/interface.go. Their fields here are the ones `matchesSessionFilters`, `matchesPhishletFilters` and the list functions use.
- The phishlet repository is modelled over a generic text store, with one key per version list and per flow session. internal/storage/interface.go declares signatures that disagree with buntdb.go, so the repository's calls are not tied to `Storage.Store`.
- `Time` is integer nanoseconds. `time.Time` arithmetic is not modelled, and neither are the saturation of `Sub`, monotonic readings or time zones. `Duration.String` in `GetSessionStats` is reported as the duration itself.
- Strings are byte sequences. `ToLower`, `EqualFold` and `TrimSpace` are modelled for ASCII only.
- IPv6 parsing and formatting are abstract parameters, so no lemma is stated about IPv6 text spellings, canonical or not. IPv4-mapped addresses are modelled once parsed: `FromV6` turns the `::ffff:0:0/96` block into IPv4 as `To4` does, and `NetContains` matches IPv4-mapped networks as `IPNet.Contains` does. Only the text form of such addresses is not analysed.
- Validation.ValidateIPAddress: it is stated against the abstract `net.ParseIP`, not a full IPv6 grammar.
- Versioning.PhishletRepository.PublishVersion: when the version is new and would be appended, it requires `name + version` to be at least four bytes, because `generateHash` slices eight hex digits and panics on shorter input. The refusal paths carry no such requirement.
- Blacklist.Blacklist.constructor: its `lines` are the tokens `bufio.Scanner` yields, with a trailing `'\r'` already dropped. The scanner's silent stop at a line longer than 64 KiB is not modelled; the model reads every line.
- Control.ControlService.UpdateSession: a session whose `Custom`, `BodyTokens` or `HttpTokens` map is nil panics in the source when a non-empty update is merged into it. Maps in the model are values and cannot be nil, so the merge always succeeds.
- Conditions.EvaluateIPGeo: the GeoIP provider is the mock one the evaluator is built with, answering `US` for every address; other providers are not modelled.
- Config.EnvDuration: `time.ParseDuration` is a parameter, so the 30-minute fallback is proved for any parser.
- Legacy.ConvertLegacySession: the three string maps are shared with the input in the source, not copied. Values have no aliasing, so later mutation through one record is not modelled.
