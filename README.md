# GatewayFinal core, modelled in Dafny

This project models the decision and text-handling core of the GatewayFinal gateway and
proves properties of that model. The gateway has two parts: a C++ reverse proxy and a
Python control plane.

- **Backend selection** (`LoadBalancing`, `BackendServer`).
  - Each backend has a five-second warm-up gate.
  - The `LoadBalancer` class holds the backends as a sequence, a 32-bit round-robin cursor and one 32-bit connection counter per backend.
  - It implements the four selection rules: round robin, least connections, GPU-aware and source-IP hash.
  - A backend pointer is its index in the sequence; a null pointer is `None`.
  - Time is the parameter `now`, in whole seconds.
- **Event loop** (`Events`). The `EventLoop` class covers three things:
  - turning one read into a task, whose priority is 1 exactly when the text contains `X-Priority: High`;
  - registering connections;
  - draining the task queue highest priority first.
- **HTTP parsing** (`Http`). This is a loose reading of the request-line and header-field syntax of RFC 9112, sections 3 and 5. It covers:
  - request-line tokenising, with the semantics of `istream >>`;
  - header splitting;
  - body gathering line by line, with the semantics of `std::getline`;
  - protocol classification (WebSocket upgrade, HTTP/2.0 downgrade).
- **Protocol conversion** (`ProtocolConvert`):
  - the mock frame: 4-byte big-endian length, a 0x00 flag byte, then the payload;
  - the mock JSON-to-Protobuf character substitution.
- **Content engine** (`ContentEngine`): the `/api/all` aggregation and the `x-proxy-id` header injection.
- **Control plane** (`BackendMerge`, `ControlApi`):
  - normalising backend records;
  - the `ip:port` key;
  - merging discovery (k8s) records with runtime registrations (runtime wins; then filter; then sort by (ip, port));
  - the runtime TTL;
  - the register and weight-override upserts;
  - the audit-log tail clamp.
- **Memory pool** (`MemoryManager`): the LIFO free list of 4096-byte blocks and the usage counter.

`Basics` holds `Option`, the fixed-width unsigned types and substring search. `Decimal`
holds decimal rendering of integers (`std::to_string`, Python f-strings) and its inverse.

Most operations that loop or update state are methods. Each is proved equal to a
specification function, or proved to meet a stated choice predicate. The lemmas state
the promised properties about those functions. Examples:

- the merge keeps exactly the winning, usable record per key, strictly sorted;
- parsing a well-formed request returns its body;
- the gRPC mock frame decodes back to its payload;
- a TTL pass is idempotent;
- a round of round-robin picks is a permutation of the available backends.

### Where the code's behaviour is not what its comments suggest

The model follows the code:

- Warm-up completion sets the weight to 1, not back to the constructor's weight (`backend_server.h:30`).
- `decrConnCount` on a zero counter wraps to 2^32-1.
- Least connections returns null when every counter is 2^32-1.
- GPU-aware returns null when every weight is at most -1.
- `selectByClientIP` is not reachable from `selectBackend`.
- `ip_hash` ignores the dots, so addresses that differ only in dot placement collide (`IpHashDotPlacementCollides`).
- `ip_hash` subtracts `'0'` from every other byte, not only digits. With a signed `char`, a byte of 0x80 or more contributes a negative amount (`IpHashHighByteIsNegative`).
- `istream >>` leaves a string untouched when an extraction fails. A request object reused across parses therefore keeps fields from the earlier request, and the one-word line `GET` parses successfully (`ShortLineKeepsOldFields`).
- `std::getline` keeps the `'\r'` of CRLF line endings, and header values are trimmed of spaces and tabs only. With CRLF input an `Upgrade: websocket` header is stored as `"websocket\r"`, so the request is not classified as WebSocket (`UpgradeWithCarriageReturnMissed`).
- The mock frame puts the 4-byte length before the flag byte. That is the reverse of the gRPC Length-Prefixed-Message, which has the flag byte first.

## Model

| member | source | states |
|---|---|---|
| Basics.Find | src/core/EventLoop.h:50 | std::string::find: None exactly when the pattern does not occur; otherwise the first position where it occurs |
| Decimal.NatToString | src/logic/src/logic/content_engine.cpp:8 | std::to_string of a natural: non-empty, all digits, no leading zero |
| Decimal.DigitsValueOfNatToString | src/logic/src/logic/content_engine.cpp:8 | reading the rendered digits back gives the number (round trip) |
| Decimal.NatToStringInjective | src/logic/src/logic/content_engine.cpp:8 | distinct naturals render differently, so backend entry labels are distinct |
| Decimal.IntToString | src/control/app.py:139 | the f-string rendering of an int: digits with an optional leading '-' |
| Decimal.IntToStringInjective | src/control/app.py:139 | distinct integers render differently |
| BackendServer.NewBackend | src/logic/src/common/backend_server.h:18-20 | a new backend has the given ip, port and weight (default 1), zero GPU and VRAM usage, and is warming up since `now` |
| BackendServer.CheckWarmupFinish | src/logic/src/common/backend_server.h:23-34 | not warming up: true and unchanged; warming for at least 5 s: true, flag cleared, weight 1; otherwise false and unchanged |
| BackendServer.CheckWarmupIdempotent | src/logic/src/common/backend_server.h:24-31 | once a check passes, every later check passes and changes nothing |
| BackendServer.WarmupNeverResumes | src/logic/src/common/backend_server.h:24-31 | a cleared warm-up flag is never set again |
| BackendServer.WarmupGate | src/logic/src/common/backend_server.h:18-34 | a backend created at `start` passes exactly from start+5 on, then with weight 1; before that it is unchanged |
| BackendServer.ReadyMonotone | src/logic/src/common/backend_server.h:25-32 | readiness only grows with time |
| BackendServer.GpuAwareWeight | src/logic/src/common/backend_server.h:37-39 | the GPU-aware weight is 0 while warming up |
| BackendServer.GpuAwareWeightBounds | src/logic/src/common/backend_server.h:37-39 | with vram_usage in [0,1] the weight lies in [0, weight], and it is positive for a ready backend with spare memory |
| BackendServer.GpuAwareWeightAntitone | src/logic/src/common/backend_server.h:37-39 | less VRAM in use never lowers the weight |
| LoadBalancing.Inc32 | src/logic/src/logic/load_balancer.cpp:107 | 32-bit increment: +1, and 2^32-1 wraps to 0 |
| LoadBalancing.Dec32 | src/logic/src/logic/load_balancer.cpp:114 | 32-bit decrement: -1, and 0 wraps to 2^32-1 |
| LoadBalancing.Dec32Inc32Inverse | src/logic/src/logic/load_balancer.cpp:105-116 | decrement undoes increment and vice versa, wrap-around included |
| LoadBalancing.Available | src/logic/src/logic/load_balancer.cpp:9-17 | the available list is exactly the indices of backends whose warm-up check passes, strictly increasing (list order) |
| LoadBalancing.AvailableAfterRefresh | src/logic/src/logic/load_balancer.cpp:9-17 | after a pass, any later pass keeps every available backend; a second pass at the same time changes nothing and finds the same list |
| LoadBalancing.AvailableAreWarm | src/logic/src/logic/load_balancer.cpp:9-17 | after the pass no available backend is still warming up |
| LoadBalancing.RoundRobinPick | src/logic/src/logic/load_balancer.cpp:28-33 | null exactly when nothing is available; otherwise available[cursor mod n] |
| LoadBalancing.RoundRobinRotation | src/logic/src/logic/load_balancer.cpp:32 | n consecutive picks without a cursor wrap are the available list rotated by cursor mod n |
| LoadBalancing.RoundRobinRoundIsPermutation | src/logic/src/logic/load_balancer.cpp:32 | one round of n picks visits every available backend exactly once |
| LoadBalancing.RoundRobinWrapRepeats | src/logic/src/logic/load_balancer.h:37 | when the 32-bit cursor wraps, three backends see the first one picked twice in a row |
| LoadBalancing.LeastConnScan | src/logic/src/logic/load_balancer.cpp:42-52 | the scan returns null exactly when every count is 2^32-1; otherwise an available backend with the least count, the first such |
| LoadBalancing.GpuAwareScan | src/logic/src/logic/load_balancer.cpp:61-71 | the scan returns null exactly when every weight is at most -1; otherwise an available backend of maximal weight, the first such |
| LoadBalancing.GpuAwareFindsOne | src/logic/src/logic/load_balancer.cpp:59-71 | with usages in [0,1], GPU-aware selection returns a backend whenever one is available |
| LoadBalancing.ComputeIpHash | src/logic/src/logic/load_balancer.cpp:91-97 | the ip_hash loop computes the 32-bit digit fold over the non-'.' characters |
| LoadBalancing.DigitOf | src/logic/src/logic/load_balancer.cpp:93-94 | `c - '0'` with a signed char: a digit gives its value, and every byte gives a value in [-176, 79] |
| LoadBalancing.IpHashHighByteIsNegative | src/logic/src/logic/load_balancer.cpp:91-101 | the byte 0xC3 contributes -109, so its hash is 2^32 - 109 and with 11 backends it picks index 5 |
| LoadBalancing.IpHashIsFoldMod | src/logic/src/logic/load_balancer.cpp:91-97 | the 32-bit hash is the unbounded decimal fold reduced mod 2^32 |
| LoadBalancing.IpHashIgnoresDot | src/logic/src/logic/load_balancer.cpp:93-95 | removing a '.' never changes the hash |
| LoadBalancing.IpHashDotPlacementCollides | src/logic/src/logic/load_balancer.cpp:91-97 | "1.23.4.5" and "12.3.4.5" hash alike |
| LoadBalancing.ClientIpPick | src/logic/src/logic/load_balancer.cpp:99-101 | null exactly when nothing is available; otherwise an available backend |
| LoadBalancing.ClientIpSticky | src/logic/src/logic/load_balancer.h:27-28 | a second selection for the same ip at the same time picks the same backend |
| LoadBalancing.LoadBalancer.constructor | src/logic/src/logic/load_balancer.h:19 | round robin by default, cursor 0, no backends |
| LoadBalancing.LoadBalancer.AddBackend | src/logic/src/logic/load_balancer.cpp:20-24 | appends the backend with count 0; everything else unchanged |
| LoadBalancing.LoadBalancer.GetAvailableBackends | src/logic/src/logic/load_balancer.cpp:9-17 | writes back each backend after its check and returns the available list; counters and cursor unchanged |
| LoadBalancing.CheckAll | src/logic/src/logic/load_balancer.cpp:11-15 | the loop checks every backend in list order: the list afterwards is each backend's checked copy and the indices kept are exactly those whose check passed |
| LoadBalancing.LoadBalancer.SelectRoundRobin | src/logic/src/logic/load_balancer.cpp:27-34 | returns available[cursor mod n]; the cursor advances by one (mod 2^32) only when something is available |
| LoadBalancing.LoadBalancer.SelectLeastConn | src/logic/src/logic/load_balancer.cpp:37-53 | returns the first available backend of least count (null as LeastConnScan says) |
| LoadBalancing.LoadBalancer.SelectGpuAware | src/logic/src/logic/load_balancer.cpp:56-72 | returns the first available backend of maximal GPU-aware weight after the warm-up pass |
| LoadBalancing.LoadBalancer.SelectBackend | src/logic/src/logic/load_balancer.cpp:75-82 | dispatches on the policy; the result is always available, and null whenever none is; the round-robin cursor advances by one (mod 2^32) exactly when round robin picks a backend, and stays put otherwise |
| LoadBalancing.LoadBalancer.SelectByClientIp | src/logic/src/logic/load_balancer.cpp:85-102 | returns available[ip_hash mod n], or null when nothing is available |
| LoadBalancing.LoadBalancer.IncrConnCount | src/logic/src/logic/load_balancer.cpp:105-109 | adds 1 mod 2^32 to that backend's counter only; null is a no-op |
| LoadBalancing.LoadBalancer.DecrConnCount | src/logic/src/logic/load_balancer.cpp:112-116 | subtracts 1 mod 2^32 from that backend's counter only; null is a no-op |
| LoadBalancing.OpenThenClose | src/logic/src/logic/load_balancer.h:31-32 | an open followed by a close restores every counter; each counter is always opens minus closes mod 2^32 |
| MemoryManager.MemoryPool.constructor | src/core/MemoryManager.h:14 | usage starts at 0 with an empty free list |
| MemoryManager.MemoryPool.Allocate | src/core/MemoryManager.h:22-32 | pops the last freed block with usage unchanged; otherwise a fresh block, with usage up by exactly 4096 |
| MemoryManager.MemoryPool.Deallocate | src/core/MemoryManager.h:35-38 | pushes the block; usage unchanged |
| MemoryManager.MemoryPool.UsageKB | src/core/MemoryManager.h:43-45 | usage in KiB, exact and a multiple of 4 |
| MemoryManager.ReuseAfterFree | src/core/MemoryManager.h:24-38 | free then allocate returns the same block (LIFO) at no cost |
| Events.UntilNul | src/core/EventLoop.h:42-46 | std::string(buf): the prefix before the first NUL |
| Events.MakeTask | src/core/EventLoop.h:46-58 | the task has the channel's fd and the read text; its priority is 1 exactly when the text contains `X-Priority: High`, else 0 |
| Events.TopExists | src/core/EventLoop.h:19-21 | every non-empty queue has a task of maximal priority |
| Events.ElevatedBeforeNormal | src/core/EventLoop.h:85-94 | in a non-increasing order every priority-1 task precedes every priority-0 task |
| Events.EventLoop.constructor | src/core/EventLoop.h:26-28 | no channels and an empty queue |
| Events.EventLoop.AddConnection | src/core/EventLoop.h:73-78 | registers one channel with that fd and interest mask 1 |
| Events.EventLoop.HandleRead | src/core/EventLoop.h:41-65 | n > 0 enqueues exactly one task; n == 0 unregisters the channel; n < 0 changes nothing |
| Events.EventLoop.PopTop | src/core/EventLoop.h:87-88 | removes and returns a task of maximal priority |
| Events.EventLoop.ProcessPendingTasks | src/core/EventLoop.h:82-95 | empties the queue; the processed tasks are exactly the queued ones (as a multiset), in non-increasing priority |
| Http.ToLower | src/logic/src/logic/http_parser.cpp:6-9 | same length; ASCII capitals lowered, every other character kept |
| Http.ToLowerIdempotent | src/logic/src/logic/http_parser.cpp:6-9 | lowering twice is lowering once |
| Http.FirstIndexOf | src/logic/src/logic/http_parser.cpp:20-21 | None exactly when the character is absent; otherwise its first position |
| Http.ExtractWord | src/logic/src/logic/http_parser.cpp:14 | `>>` fails exactly on all-whitespace input; otherwise it yields a non-empty word without whitespace |
| Http.ParseRequestLine | src/logic/src/logic/http_parser.cpp:12-16 | only method, path and version change; true exactly when all three are non-empty; a failed extraction keeps the old value |
| Http.RequestLineRoundTrip | src/logic/src/logic/http_parser.cpp:12-16 | "m p v\r" parses back to exactly m, p and v |
| Http.ShortLineKeepsOldFields | src/logic/src/logic/http_parser.cpp:14-15 | on a reused request the one-word line "GET" succeeds with the old path and version |
| Http.TrimLeft | src/logic/src/logic/http_parser.cpp:24 | removes exactly the leading spaces and tabs |
| Http.TrimRight | src/logic/src/logic/http_parser.cpp:25 | removes exactly the trailing spaces and tabs |
| Http.TrimKeepsCarriageReturn | src/logic/src/logic/http_parser.cpp:24-25 | a trailing '\r' survives the trim |
| Http.ParseHeaderLine | src/logic/src/logic/http_parser.cpp:19-28 | no ':': false and unchanged; otherwise only the headers change, and key = lower(text before first ':') maps to the trimmed rest, overwriting |
| Http.HeaderValueKeepsCarriageReturn | src/logic/src/logic/http_parser.cpp:23-26 | a header line ending in '\r' stores a value ending in '\r' |
| Http.DetectProtocol | src/logic/src/logic/http_parser.cpp:31-46 | WebSocket exactly when upgrade lowercases to "websocket"; else HTTP/2.0 downgrades and rewrites the version to HTTP/1.1; else HTTP/1.1; nothing else changes |
| Http.UpgradeWithCarriageReturnMissed | src/logic/src/logic/http_parser.cpp:33-34 | an upgrade value ending in '\r' is never classified WebSocket |
| Http.LinesHaveNoNewline | src/logic/src/logic/http_parser.cpp:59 | no line std::getline yields contains '\n' |
| Http.LinesJoinRoundTrip | src/logic/src/logic/http_parser.cpp:65-67 | splitting into lines and re-joining with "\n" gives the input back, plus a final "\n" if it lacked one |
| Http.LinesOfJoin | src/logic/src/logic/http_parser.cpp:54-67 | lines joined with "\n" split back into those lines |
| Http.HeaderEnd | src/logic/src/logic/http_parser.cpp:59 | the header section stops at the first line equal to "\r" or "" |
| Http.ReadHeaders | src/logic/src/logic/http_parser.cpp:59-61 | the header loop stops at HeaderEnd, having applied each header line in order |
| Http.ReadBody | src/logic/src/logic/http_parser.cpp:64-68 | the body is every remaining line followed by "\n" |
| Http.Parse | src/logic/src/logic/http_parser.cpp:49-73 | parse agrees with ParseSpec: it fails only on a missing or rejected first line; malformed headers are skipped |
| Http.ReadAfterRequestLine | src/logic/src/logic/http_parser.cpp:59-72 | after the request line, parse applies the headers up to the terminating line, takes every later line plus "\n" as the body, then detects the protocol |
| Http.ParseBodyRoundTrip | src/logic/src/logic/http_parser.cpp:49-73 | a request line, headers, "\r" and a body parse successfully with exactly that body and those headers |
| ProtocolConvert.GrpcPayload | src/logic/src/logic/protocol_convert.cpp:10 | the payload is '/', the path, ':', then the body |
| ProtocolConvert.BigEndian32 | src/logic/src/logic/protocol_convert.cpp:13-16 | htonl gives four bytes |
| ProtocolConvert.BigEndian32RoundTrip | src/logic/src/logic/protocol_convert.cpp:13-16 | the four bytes decode back to the value |
| ProtocolConvert.DecodeBigEndian32RoundTrip | src/logic/src/logic/protocol_convert.cpp:13-16 | any four bytes are the encoding of their 32-bit value |
| ProtocolConvert.HttpToGrpcMock | src/logic/src/logic/protocol_convert.cpp:9-20 | the frame is 5 bytes longer than the payload |
| ProtocolConvert.DecodeFrame | src/logic/src/logic/protocol_convert.cpp:13-18 | a frame can be read exactly when it holds at least 5 bytes |
| ProtocolConvert.GrpcFrameRoundTrip | src/logic/src/logic/protocol_convert.cpp:13-18 | decoding the frame gives the payload length mod 2^32, flag 0 and the payload |
| ProtocolConvert.GrpcPayloadSplits | src/logic/src/logic/protocol_convert.cpp:10 | with no ':' in the path, path and body are recovered from the payload |
| ProtocolConvert.Replace | src/logic/src/logic/protocol_convert.cpp:25 | std::replace: same length, each `from` becomes `to`, all else kept |
| ProtocolConvert.JsonToProtobufPointwise | src/logic/src/logic/protocol_convert.cpp:23-29 | same length; each character mapped '{'→'<', '}'→'>', ':'→'=', others kept |
| ProtocolConvert.JsonToProtobufClean | src/logic/src/logic/protocol_convert.cpp:25-27 | no '{', '}' or ':' remains |
| ProtocolConvert.JsonToProtobufIdempotent | src/logic/src/logic/protocol_convert.cpp:23-29 | converting twice is converting once |
| ContentEngine.Entries | src/logic/src/logic/content_engine.cpp:7-8 | response i becomes `  "backend_<i+1>": r_i`, in input order |
| ContentEngine.AggregatePrefixStep | src/logic/src/logic/content_engine.cpp:8-12 | each iteration appends the entry, a ',' unless it is the last, and "\n" |
| ContentEngine.AggregateApiAll | src/logic/src/logic/content_engine.cpp:5-16 | the loop builds the entries joined by ",\n" between "{\n" and "\n}" (exactly "{\n}" when empty) |
| ContentEngine.AggregateLength | src/logic/src/logic/content_engine.cpp:6-14 | length 3 when empty, else 4 + the entries + 2 per separator (n-1 separators) |
| ContentEngine.AggregateSnoc | src/logic/src/logic/content_engine.cpp:9-12 | one more response adds one ",\n" and the new entry before the closing "\n}" |
| ContentEngine.AggregateBraces | src/logic/src/logic/content_engine.cpp:6-14 | the aggregate starts with "{\n" and ends with "}" |
| ContentEngine.ForceInsertProxyHeader | src/logic/src/logic/content_engine.cpp:19-21 | x-proxy-id is set to the team (default TeamB-LinuxExp); every other header and field is unchanged |
| ContentEngine.ForceInsertLastWins | src/logic/src/logic/content_engine.cpp:19-21 | inserting twice leaves only the last team name |
| BackendMerge.IntOr | src/control/app.py:127 | `int(x or d)`: absent, null and 0 give the default, any other value is kept |
| BackendMerge.Strip | src/control/app.py:126 | str.strip(): the result is a contiguous piece of the input, everything cut off on either side is whitespace, and no whitespace is left at either end |
| BackendMerge.StripIdempotent | src/control/app.py:126 | stripping twice is stripping once |
| BackendMerge.NormalizeDefaults | src/control/app.py:123-135 | an empty record normalises to ip "", port, weight and last_seen 0, enabled true, not warming up, and the given source |
| BackendMerge.NormalizeIdempotent | src/control/app.py:123-135 | a normalised record written back and normalised again is unchanged |
| BackendMerge.KeyOfInjective | src/control/app.py:138-139 | equal keys mean equal ip and port, even when the ip contains ':' |
| BackendMerge.Lookup | src/control/app.py:146 | a found entry is in the dict under that key; none means no entry has the key |
| BackendMerge.Upsert | src/control/app.py:149-150 | the dict assignment adds the new entry and keeps every entry with another key |
| BackendMerge.UpsertLookup | src/control/app.py:149-150 | after assigning, the key maps to the new entry, other keys are unchanged, and keys stay distinct |
| BackendMerge.UpsertAllLookup | src/control/app.py:148-154 | after the loop, each key maps to the last record with that key, else its old value |
| BackendMerge.StrLessTotal | src/control/app.py:157 | Python string order is total on distinct strings (also irreflexive and transitive) |
| BackendMerge.Insert | src/control/app.py:157 | insertion adds exactly the element (multiset) |
| BackendMerge.SortByIpPort | src/control/app.py:157 | the sort is a permutation |
| BackendMerge.SortByIpPortSorted | src/control/app.py:157 | with distinct (ip, port) the sort is strictly increasing by (ip, port) |
| BackendMerge.FilterUsable | src/control/app.py:156 | keeps exactly the entries with a non-empty ip and a positive port |
| BackendMerge.MergedDictLookup | src/control/app.py:146-154 | each key maps to its winner: the last runtime record, else the last k8s record |
| BackendMerge.MergeBackendsMembers | src/control/app.py:142-158 | a backend is in the merge exactly when it is usable and is its key's winner |
| BackendMerge.MergeBackendsSorted | src/control/app.py:156-157 | the merge is strictly sorted by (ip, port), so keys are pairwise distinct, and every entry is usable |
| BackendMerge.RuntimeOverridesK8s | src/control/app.py:152-154 | a usable runtime record appears in the merge and shadows every k8s record with its ip and port |
| ControlApi.ApplyRuntimeTtl | src/control/app.py:188-211 | the loop computes RuntimeTtl: unchanged when ttl <= 0; stale enabled records disabled; updated_at = now only if something changed |
| ControlApi.RuntimeTtlIdempotent | src/control/app.py:193-211 | a second TTL pass at the same time changes nothing |
| ControlApi.RuntimeTtlOnlyDisables | src/control/app.py:200-205 | only `enabled` may change, exactly for expiring records; disabled stays disabled; an expired record merges as disabled |
| ControlApi.RuntimeTtlLeavesNoStaleEnabled | src/control/app.py:200-205 | after the pass no record is both stale and enabled |
| ControlApi.FirstMatch | src/control/app.py:341-350 | the first record whose raw ip and port match, or None when none does |
| ControlApi.ApiRegister | src/control/app.py:322-366 | the handler computes Register: rejection, update of the first match, or append, with updated_at = now |
| ControlApi.RegisterLoop | src/control/app.py:340-364 | the found-and-break loop refreshes the first record with the same ip and port, or appends a new warming record when none matched |
| ControlApi.RegisterValidation | src/control/app.py:330-331 | rejected exactly when the stripped ip is empty or the port is <= 0 |
| ControlApi.RegisterEffect | src/control/app.py:341-366 | updated_at = now; the list grows by one exactly when nothing matched; non-matching records are untouched |
| ControlApi.RegisterLive | src/control/app.py:341-364 | the registered record is enabled, seen now, has the weight (default 10), and is warming up if new |
| ControlApi.RegisterIdempotent | src/control/app.py:341-366 | registering the same request twice at the same time equals registering once |
| ControlApi.RegisterIntoIdempotent | src/control/app.py:340-364 | applying the same registration to the record list a second time changes nothing |
| ControlApi.FirstRegistrationIsMerged | src/control/app.py:352-364 | a first registration is in the next merge, enabled and warming up, and shadows k8s records for its ip and port |
| ControlApi.ApiSetWeight | src/control/app.py:391-421 | the handler computes SetWeight: update of the first match or append, updated_at = now, with no validation |
| ControlApi.SetWeightEffect | src/control/app.py:397-419 | the first match carries the new weight and is enabled; the list grows exactly when nothing matched, then with a record not warming up and without GPU data |
| ControlApi.FirstOverrideIsMerged | src/control/app.py:406-419 | an override for an unknown backend is in the next merge, enabled, out of warm-up, with the new weight |
| ControlApi.ClampTail | src/control/app.py:477-478 | the tail count is in [10, 2000]: 100 when absent or empty, else the value clamped |

## Left out
- Strings: a C++ `std::string` is a sequence of bytes. The model uses Dafny strings and lets each character stand for one byte, below 256. It does not enforce that bound on request fields, so a character above 0xFF has no counterpart in the source. For such a character, lengths such as the frame's `htonl(size)` count characters, not the bytes of an encoding. `DigitOf` reads a character above 0xFF as its low byte, and reads bytes 0x80-0xFF as negative, as a signed `char` does on x86-64. On a platform where `char` is unsigned (ARM), those bytes are positive and the hash differs.

- Kernel pollers (epoll, select, io_uring and the poller factory) are not modelled. They are thin wrappers over system calls.
- The `EventLoop::loop` I/O shell is not modelled: the poll wait, `::read`, `close`, `delete` and the never-set quit flag. The result of a read is the parameter `n` plus the received characters.
- Logging to stdout is not modelled.
- zlib compress/decompress is not modelled. It is a foreign library.
- `TransferUtils::sendFileZeroCopy` and `src/main_final.cpp` are not modelled. They consist only of socket and file system calls.
- The health check is not modelled. It is a stub.
- Concurrency is not modelled: the mutexes, the atomic counters and cursor, the event-loop lock, and the Python sync lock and autosync thread. Every operation is modelled as sequential.
- Clocks are not modelled. `steady_clock::now()` and `time.time()` become the parameter `now`, in whole seconds. The configured TTL becomes the parameter `ttl`.
- Float exactness is not modelled. `BackendServer.GpuAwareWeight` uses exact reals in place of single-precision floats, so the GPU-aware argmax is exact where the source may round.
- LoadBalancing.LoadBalancer: connection counters are indexed by position. The source keys them by pointers into a growing vector, and reallocation can leave those pointers dangling; the model does not capture that aliasing.
- MemoryManager.MemoryPool: the source keeps the pool in static storage; the model makes it one object. Blocks are handles, not memory.
- The control plane's Flask routes and JSON (de)serialisation are not modelled. The JSON-file reads and atomic writes, SIGHUP delivery, ping, `build_proxy_config`, the browser UI and the helper scripts are not modelled either.
- ControlApi: the runtime table is passed in and returned. The source updates the loaded object in place and writes it back to disk.
- A JSON `null` for `enabled` or `is_warming_up` reads as false in Python. The model treats it like an absent key.
- A non-string ip is rendered by Python's `str()`, for example `None` becomes "None". That rendering is not modelled: the model's ip is a string or absent.
- Non-integer numeric fields (floats, numeric strings) are not modelled; they make `int(...)` truncate or raise.
- A `tail` argument that is not a number raises an error in the source. The model's argument is already parsed.
