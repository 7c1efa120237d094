# Realm address allocator of the OpenVPN subnetwork plugin, in Dafny

This project models the allocator core of `src/simple.c`. The plugin gives
each VPN client an IP address from a *realm*: the first configured realm
whose pattern matches the client's certificate common name. The model
covers five parts:

- **Pattern matcher** (`matchhere`, `matchstar`, `match`) — module
  `Matcher`. This is the Kernighan–Pike matcher over C strings. A C string
  is modelled as `CString`: the characters before the terminating NUL.
  Module `PatternLanguage` gives patterns a declarative meaning: a list of
  one-character and starred items, optionally anchored by a final `$`. It
  proves that the matcher decides exactly that language.
- **Range derivation** — `Ranges.Derive`. This is the netmask arithmetic
  of the configuration loader, applied to octets that are already parsed.
- **Pool construction** (`generate_subnet`) — module `Pool`. The grid is
  walked octet 2 outer, octet 3 inner. The network, gateway, broadcast and
  DHCP positions are skipped. Every other position becomes a free slot
  `start0.start1.j.k`.
- **First-fit allocation and release** (`found_ip_realm`, and the release
  in `client_disconnect`) — module `Allocation`.
- **Connect and disconnect** (`client_connect`, `client_disconnect`) —
  module `Plugin`. These are pure state transitions. Each returns the new
  realms, the client context, the return code and a file *effect*: write
  `ifconfig-push address netmask` under the client's name, or delete the
  file.
- `get_env` — module `Env`.

`SubnetArray` models the C layout of the slot array, to show the defect
listed under Findings. `Scenarios` states concrete configurations as
lemmas about the model.

The functions that model the C code are `Matcher.MatchHere`
(`matchhere`, src/simple.c:156-167), `Matcher.MatchStar` (`matchstar`,
lines 186-193), `Matcher.Match` (`match`, lines 172-181) with
`Matcher.MatchAnywhere` for its do-while loop (lines 176-179),
`Pool.Generate` (`generate_subnet`, lines 285-326) and, on the C array
layout, `SubnetArray.ScanAsWritten` (the loop of `found_ip_realm`, lines
141-148). The table below lists the members whose contracts state what
these functions compute.

A C string is a sequence of bytes. Each `char` of a `CString` stands for
one byte (a value below 256), so a name that takes several bytes in UTF-8
is that many characters in the model, and `.` consumes one byte of it, as
in the C matcher.

In these places the model follows the code as written:

- A client that connects again while it holds a slot gets a second slot.
  The old pointer is overwritten and the old slot stays used (line 233).
  Nothing rejects this. `Plugin.ReconnectLeaksOldLease` states it.
- Release goes through the client's slot pointer, not through a search by
  holder name.
- The disconnect never clears the client's pointer. So a second disconnect
  releases the same slot again. That is a no-op on the pool as long as
  nobody has leased the slot in between.
- All four end octets use the same formula. Only octets 2 and 3 are
  enumerated, and the addresses take octets 0 and 1 from the start.
- The DHCP exclusion is present: four positions are reserved.

## Model

| member | source | states |
|---|---|---|
| Matcher.MatchStarRuns | src/simple.c:186-193 | The matchstar loop succeeds iff, for some n, the first n characters are all `c` (any characters when `c` is `.`) and the rest of the pattern matches at offset n. |
| Matcher.MatchIsSuffixSearch | src/simple.c:172-181 | With a leading `^`, match equals matchhere of the rest at the start of the text. Otherwise it succeeds iff matchhere succeeds at some suffix, the empty suffix at the end included. |
| Matcher.LiteralMatchesPrefix | src/simple.c:164-165 | A pattern without `.`, `*` or `$` matches at a position iff it is a prefix of the text there. |
| PatternLanguage.MatchHereDenotes | src/simple.c:156-167 | matchhere succeeds iff some prefix of the text is spelled by the parsed pattern. For a `$`-anchored pattern that prefix is the whole text. An empty pattern matches every text. |
| PatternLanguage.TrailingDollarAnchors | src/simple.c:162-163 | A pattern is end-anchored iff its last character is `$`. So a final `$` matches only at the end of the text. |
| PatternLanguage.MatchDenotes | src/simple.c:172-181 | match succeeds iff the pattern body spells a prefix of some suffix of the text. With a leading `^` that suffix must start at the beginning. |
| Env.Lookup | src/simple.c:119-128 | The lookup returns NULL iff no entry starts with `name=`. Otherwise it returns the text after `name=` of the first such entry. |
| Env.GetEnv | src/simple.c:113-131 | A NULL environment gives NULL. Otherwise the result is the value of the first `name=` entry, or NULL when there is none. |
| Env.BindingRoundTrip | src/simple.c:122-126 | An entry `name=value` binds `name`, and the value read back is exactly `value`. |
| Ranges.Derive | src/simple.c:375-385 | The start is the network. Each octet spans `256 - mask` values, so a mask octet of 255 gives end equal to start, and a mask octet above 255 gives an empty span. |
| Pool.GenerateContents | src/simple.c:298-323 | Every created slot is free, has no holder, and has a non-reserved grid address `start0.start1.j.k`. Every such address has a slot. Slots run octet-2-outer, octet-3-inner, strictly ascending. |
| Pool.GenerateSize | src/simple.c:298-323 | When the four reserved positions are distinct grid cells, the pool has exactly `rows * cols - 4` slots. |
| Pool.GenerateBelowCount | src/simple.c:293-295 | For a non-empty grid the pool holds at most `count - 1` slots, where `count = (e2-s2+1)*(e3-s3+1)`. For an empty grid the pool is empty. |
| Allocation.Acquire | src/simple.c:137-149 | found_ip_realm returns the lowest-index free slot, marks it used and held by the name, and leaves every other slot unchanged. It returns NULL iff every slot is used, and then the pool is unchanged. It keeps the holder-iff-used invariant. |
| Allocation.Release | src/simple.c:261-262 | The released slot becomes free with no holder and keeps its address. No other slot changes. |
| Allocation.ReleaseIdempotent | src/simple.c:254-264 | Releasing a slot twice is the same as releasing it once. |
| Allocation.AcquireReleaseRoundTrip | src/simple.c:137-149 | Acquire followed by release of the acquired slot restores the pool. |
| Allocation.AcquireAscending | src/simple.c:141-146 | Two successive successful acquires return strictly increasing indices. |
| Allocation.AcquireFilled | src/simple.c:141-146 | On a pool used on exactly its first m slots, acquire takes slot m (NULL when m is the pool size), and afterwards the first m + 1 slots are used. |
| Allocation.AcquireEachFresh | src/simple.c:141-148 | On a fresh pool the i-th acquire gets slot i while slots last. Every later acquire reports exhaustion. |
| Plugin.LoadRealm | src/simple.c:365-385 | A loaded realm keeps its configuration and its range is derived from network and netmask. Its pool holds exactly one free slot with no holder for each pool address of the range, and no other slots, in ascending address order. It keeps the holder-iff-used invariant. |
| Plugin.Configure | src/simple.c:292-324 | Each configuration line becomes one realm, in file order, loaded as LoadRealm states: derived range and the full pool of its addresses. All pools start all-free and well-formed. |
| Plugin.Lease | src/simple.c:212-240 | For the matched realm: if the pool is full, the result is error plus a delete of the client's file, with nothing else changed. Otherwise the first free slot is leased to the name, the client points at it, and its address and the realm netmask are written. Other realms are untouched. |
| Plugin.Connect | src/simple.c:204-245 | If no realm matches, the result is error with no effect. If realm i is the first match, only realm i is tried, with no fallback when it is full. Success implies the client points into the first matching realm. Error leaves realms and client unchanged. |
| Plugin.Disconnect | src/simple.c:251-265 | The result is always success. With a slot, that slot is freed and loses its holder, the file named after its holder is deleted, and nothing else changes. Without a slot nothing happens. The client context is left as it was. |
| Plugin.DisconnectIdempotent | src/simple.c:254-263 | A second disconnect of the same client changes no slot. |
| Plugin.ConnectDisconnectRoundTrip | src/simple.c:218-262 | A successful connect followed by that client's disconnect restores every pool and deletes the file written under the client's name. |
| Plugin.ReconnectLeaksOldLease | src/simple.c:233 | A successful connect by a client that already holds a slot points it at a different slot. The old slot stays used and held. |
| SubnetArray.ExhaustedScanReadsUninitialised | src/simple.c:141-148 | When every created slot is used, the scan as written reads a cell generate_subnet never wrote, for every realm. The model's acquire returns NULL instead. |
| SubnetArray.ScanAgreesWhileFree | src/simple.c:141-146 | While a slot is free, the scan as written finds the same slot as the model's acquire. |
| SubnetArray.TerminatedScanIsAcquire | src/simple.c:141-148 | With a NULL terminator after the created slots, the scan is exactly the model's acquire. |
| SubnetArray.OneSlotRealmOverrun | src/simple.c:293-320 | 10.0.0.0 with netmask 255.255.255.251 allocates 5 cells and creates one slot, 10.0.0.2. After one lease the next scan reads an unwritten cell. |
| Scenarios.ClassCRealm | src/simple.c:298-323 | 192.168.1.0 with netmask 255.255.255.0 spans .0 to .255 and offers 252 addresses. .0, .1, .254 and .255 are withheld. |
| Scenarios.FirstMatchWins | src/simple.c:204-218 | With realms `a.*` then `.*`, a name starting with `a` matches both and, while the first realm has a free slot, leases from the first. |
| Scenarios.ClientPrefix | src/simple.c:172-175 | The pattern `^client` matches a name iff the name starts with `client`. |
| Scenarios.LoneRealmFirstClient | src/simple.c:218-235 | With one `^client` realm whose single slot is free, a `client...` name is leased that slot, and its address and the realm netmask are written. |
| Scenarios.LoneRealmRefuses | src/simple.c:236-240 | With one `^client` realm whose pool is full, a `client...` name is refused with error, its file is deleted, and nothing else changes. |
| Scenarios.SingleSlotRealm | src/simple.c:218-240 | In the realm 10.0.0.0 with netmask 255.255.255.251 under `^client`, the first `client...` name gets 10.0.0.2 with that netmask written. A second such name is then refused and its file deleted. |
| Scenarios.SingleSlotNoMatch | src/simple.c:204-245 | In that realm, any name not starting with `client` matches no realm. The result is error and nothing changes. |
| Scenarios.DisconnectWithoutLease | src/simple.c:254-264 | A disconnect for a client that never leased anything is a successful no-op. |

## Left out

- Configuration file reading (`get_nb_line`, the `getline`/`strtok` loop of `get_config`, lines 270-363) is OS I/O and tokenising. Realms are given as parsed `(network, regex, netmask)` values, in the file's field order.
- Dotted-quad parsing (`atoi`) and address or filename formatting (`sprintf` into 256-byte buffers) are libc formatting. Octets are integers, with no 0..255 check, as in the source. Files are keyed by the common name, and the fixed configuration-directory prefix is omitted.
- The `fopen`/`fprintf`/`unlink` calls are returned as effects instead of being performed.
- Plugin ABI glue is outside the allocator: `openvpn_plugin_open_v1`, the `openvpn_plugin_func_v2` dispatch, the client constructor/destructor and `openvpn_plugin_close_v1`.
- Memory management is not modelled: `malloc`/`strdup`/`free`, `free_plugin_context` with its reused loop index, and the undersized `realm_conf` allocation in `get_config`.
- `printf` logging is not modelled.
- A second disconnect of a client passes its slot's `common_name`, which the first set to NULL, to `sprintf("%s", ...)` (line 257). That is undefined behaviour in C. The model writes it as `DeleteConf(None)`, a delete with no file name.
- The crash when the environment has no `common_name` is not modelled: `strdup` of NULL is undefined behaviour. `Plugin.Connect` takes the common name directly, and `Env.GetEnv` models the lookup on its own.
- A freshly created slot's `common_name` is uninitialised in the source. The model gives it no holder; the field is only read after a lease has set it.
- The matcher's shortest-run-first order inside `matchstar` is not stated. The result is a boolean, so only the existence of a run matters.
- C `int` overflow in the range and count arithmetic is not modelled. Integers are unbounded, and realistic octet values stay far from the limits.
- Concurrency: the source has none.

## Findings

| source | as written | input that shows it | evidently intended | confidence | as-written member | corrected member |
|---|---|---|---|---|---|---|
| src/simple.c:141 | The found_ip_realm loop stops only at a NULL cell. generate_subnet (lines 293-320) allocates `count` cells, fills only the slots it creates and never writes a NULL. So once every slot is used, the scan reads never-written memory. | Realm 10.0.0.0 with netmask 255.255.255.251 after one lease: 5 cells, 1 slot, so the second scan reads cell 1. | Return NULL when every created slot is used. | high; not executed | SubnetArray.ExhaustedScanReadsUninitialised | Allocation.Acquire |
