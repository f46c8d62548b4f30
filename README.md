# Routing table service: a Dafny model

This project models the core of a routing table lookup service. The service
loads a table of `prefix;next_hop` lines into a frame. It stores every route
in a binary radix trie, one trie per address family. It answers
longest-prefix-match queries from the trie, through a memo. Two endpoints
rewrite the metric of matching routes in the frame and in the trie together.

The model has six modules:

- `AddrMath` (bits.dfy) covers the arithmetic:
  - address widths and powers of two;
  - right shifts and bitwise `&`;
  - the netmask of a prefix length;
  - hexadecimal digits.
- `Text` (text.dfy) covers the texts involved:
  - `str.split`;
  - decimal `int()`;
  - the `f'{n:0Nx}'` formatting.
- `Routes` (routes.dfy) covers networks, addresses, the route record and
  trie positions (`Path`).
  - A `Selector` names a set of routes.
  - `Filter`, `Select` and `Assign` describe which routes an operation
    reads or rewrites.
  - `Collect` describes what a trie walk meets.
- `Radix` (radix.dfy) covers `service/lib/radix_tree.py`.
  - `RadixNode` and `RadixTree` are classes with the source's fields.
  - Insertion, lookup, the metric update and route collection are methods
    over those objects.
  - A ghost sequence `Inserted` holds every route inserted, in order, with
    the metric updates applied. The trie invariant ties each node's `routes`
    list to the routes of `Inserted` whose path ends at that node.
- `Table` (table.dfy) covers `service/lib/data.py`:
  - loading the frame;
  - the hex, mask and next-hop columns;
  - the two linear scans;
  - building the trie from the frame;
  - turning a trie lookup back into a frame.
- `Service` (service.dfy) covers `service/main.py`.
  - The best-route rule, `lpm_update` on the frame, and the health rule are
    modelled.
  - The class `RoutingService` holds the module state: the frame `df`, the
    trie, the lookup memo and `max_metric`. Each endpoint is a method that
    returns the reply it would send.
  - The invariant `RoutingService.Valid` says three things. The trie holds
    exactly the routes of the frame, in frame order. Every memo entry is
    the answer the current trie gives. The frame and the trie count the
    same routes.
- `Utils` (utils.dfy) covers `service/utils/data.py`. This is the second
  copy of the table code.
  - Its constants and per-row arithmetic are those of `service/lib/data.py`.
  - Its `lpm_itr` is the same loop as `Table.LpmItr`.
  - What differs is modelled here: the digit-count formula of `lpm_map`,
    the `nhn` normalisation of `__prep_df`, and its own `lpm_update`.

What the `ipaddress` module answers is a parameter, `IpLib`. It has four
parts:

- `ip_network` (strict);
- `ip_address`;
- `network.with_prefixlen`;
- `str(address)`.

Three hypotheses state what the model relies on about it:

- `Table.Sound`: whatever the library accepts is a well-formed network or
  address.
- `Table.Canonical`: the texts the library prints parse back to what was
  printed.
- `Table.Reads`: `ip_network` reads a text of the form `addr/decimal` that
  it accepts as follows. The length is the decimal after the '/'. The
  network is IPv6 exactly when the text holds a ':'. An IPv4 `addr` is the
  dotted quad of the network's octets. An IPv6 `addr`, parsed alone, has the
  network's integer. Other texts it accepts, such as a bare address or a
  netmask after the '/', are not constrained, since `get_df_pandas` refuses
  them.

The trie and the frame are compared under `Table.Consistent`: every row's
prefix parses, to the network its `addr`, `mask`, `prefixlen` and `v`
columns describe. It is not assumed: `Table.PrepDfConsistent`
proves it from `Table.Sound` and `Table.Reads` for every frame that
`get_df_pandas` loads and `prep_df` prepares, as long as each prefix parses.
That is exactly when `build_radix_tree` builds the trie rather than raising.

Where `service/main.py` applies polars expressions to the frame, the model
follows their evident meaning: a filter, and a `when/then/otherwise` column.
The frame `service/main.py` receives is the pandas frame of
`service/lib/data.py`, on which those calls raise. The "## Findings" section
records this, and `Service.RoutingService.UpdateAsWritten` models it.

## Model

| member | source | states |
|---|---|---|
| Table.AllFs | service/lib/data.py:10-11 | `int('f' * n, 16)` is 16^n − 1 |
| Table.MasksAreOnes | service/lib/data.py:10-11 | MSK4 and MSK6 are the all-ones values of 32 and 128 bits |
| Table.HexLen | service/lib/data.py:83 | the digit count of a family's columns holds exactly the family's width of bits: 16 to that power is 2 to the width |
| Table.LoadRowColumns | service/lib/data.py:31-35 | a loaded line keeps its prefix and next hop; `v` is 6 exactly when the prefix holds ':'; `addr` and `prefixlen` are the texts on either side of the only '/', the second decimal; the metric is MXMETRIC |
| Table.LoadRowRoundTrip | service/lib/data.py:31-35 | loading `addr/len` gives back `addr` and `len` |
| Table.AllRowsIff | service/lib/data.py:31-35 | a frame is built exactly when every line loads; it then holds one row per line, in order |
| Text.SplitJoin | service/lib/data.py:33 | the pieces of `str.split` hold no separator, and joining them with it gives back the text |
| Text.JoinSplit | service/lib/data.py:33 | splitting pieces without the separator, joined by it, gives back the pieces |
| Text.DecimalRoundTrip | service/lib/data.py:34 | `int()` reads back the decimal text of a number |
| Text.Decimal | service/lib/data.py:34 | `int()` of a text succeeds exactly when the text is a non-empty run of digits |
| Text.FormatFits | service/lib/data.py:83 | a number below 16^w formats in exactly w lowercase hex digits that parse back to it |
| Table.OctetsHexValue | service/lib/data.py:76-81 | writing each octet of a dotted text as two hex digits gives a 2-digits-per-octet text whose value is the octets' big-endian integer |
| Table.DottedQuad | service/lib/data.py:76-81 | the hex text of a dotted quad is its 32-bit value in 8 digits |
| Table.MaskTextValue | service/lib/data.py:82-84 | `(msk << (w − x)) & msk` in the family's digit count is the netmask of length x |
| AddrMath.MaskValue | service/lib/data.py:82-84 | the netmask of length x in w bits is 2^w − 2^(w−x) |
| Table.PrepRowColumns | service/lib/data.py:75-96 | a prepared row keeps every loaded column; its mask column is the netmask in the family's digit count; its addr column is lowercase hex, 32 digits for IPv6 |
| Table.Scan | service/lib/data.py:117-122 | the rows `lpm_itr` returns are exactly the rows with `mask & ip == addr` and the address's version |
| Table.LpmItr | service/lib/data.py:117-122 | the loop returns the scan of the frame, in frame order |
| Table.MapScan | service/lib/data.py:143-151 | the rows `lpm_map` returns are exactly the rows of the address's version whose addr text equals `mask & ip` in the family's digits |
| Table.RowTestsAgree | service/lib/data.py:143-151 | on a well-formed row the string test of `lpm_map` and the integer test of `lpm_itr` agree |
| Table.MapIsItr | service/lib/data.py:143-151 | on well-formed rows `lpm_map` and `lpm_itr` return the same frame |
| Table.PrepRowAgrees | service/lib/data.py:75-96 | a loaded row whose prefix parses is prepared into a row whose `v`, `addr`, `mask` and `prefixlen` columns describe the parsed network |
| Table.PrepDfConsistent | service/lib/data.py:31-35 | a frame that is loaded and prepared is consistent with its parsed networks exactly when every prefix parses |
| Table.AgreesHexed | service/lib/data.py:75-96 | a row whose columns describe its network reads back that network and its netmask |
| Table.ItrMatchIffContains | service/lib/data.py:120 | the `lpm_itr` test holds exactly when the row's network contains the address |
| Table.ScanIsSelect | service/lib/data.py:117-122 | the routes of the `lpm_itr` frame are the frame's routes that contain the address, in frame order |
| Table.LookupIsScan | service/lib/data.py:214-235 | a trie lookup over a trie built from the frame finds the same routes as `lpm_itr` over the frame |
| Table.RoutesOf | service/lib/data.py:177-182 | the route `insert` stores for each row, one per row, in order |
| Table.BuildRadixTree | service/lib/data.py:171-182 | the built trie holds the routes of all rows, in frame order, and counts them; it is built exactly when every prefix parses |
| Table.InsertRow | service/lib/data.py:178-182 | one loop step appends the row's route, or fails when its prefix does not parse |
| Table.LpmLookupRadix | service/lib/data.py:214-235 | an address that does not parse gives the empty frame; otherwise the trie is asked with the printed address, and the result is one row per route the walk meets, empty exactly when no route contains the address |
| Radix.RadixTree.constructor | service/lib/radix_tree.py:47-50 | a new trie is valid, holds no route and counts 0 |
| Radix.RadixNode.constructor | service/lib/radix_tree.py:30-33 | a new node has no children and no routes |
| Radix.RadixTree.Descend | service/lib/radix_tree.py:95-102 | a step of the insert walk goes to the child for the bit, creating it when missing; no route changes |
| Radix.RadixTree.AddRoute | service/lib/radix_tree.py:105-106 | the route is appended at its node and counted |
| Radix.RadixTree.Insert | service/lib/radix_tree.py:52-106 | a prefix that parses adds exactly one route, with the next hop's integer as `nhn` or 0, and everything else stays; a prefix that does not parse changes nothing |
| Radix.RadixTree.WalkStep | service/lib/radix_tree.py:142-156 | a lookup step reaches the node of the next bit, or stops where no stored route lies further down |
| Radix.RadixTree.MissingEndsWalk | service/lib/radix_tree.py:146-151 | once a node is missing, no stored route below that depth contains the address |
| Radix.RadixTree.Lookup | service/lib/radix_tree.py:108-158 | the routes a lookup returns are those the walk meets from the root to the address's deepest node |
| Routes.CollectAll | service/lib/radix_tree.py:108-158 | the walk meets exactly the stored routes whose network contains the address |
| Routes.NoMatchIff | service/lib/radix_tree.py:108-158 | a lookup is empty exactly when no stored route contains the address |
| Routes.CollectSorted | service/lib/radix_tree.py:137-156 | a lookup returns routes from shortest to longest prefix |
| Radix.RadixTree.Locate | service/lib/radix_tree.py:187-192 | the walk of `update_metric` finds the prefix's node exactly when it exists |
| Radix.RadixTree.UpdateAtMissing | service/lib/radix_tree.py:191-192 | when the prefix's node is missing, no stored route is selected, so returning 0 leaves every route as it was |
| Radix.RadixTree.UpdateNode | service/lib/radix_tree.py:195-198 | the node's matching routes get the new metric and are counted; no other route changes |
| Radix.RadixTree.UpdateSubtree | service/lib/radix_tree.py:214-231 | every route below the node with the next hop gets the new metric and is counted; no other route changes |
| Radix.RadixTree.UpdateMetric | service/lib/radix_tree.py:160-212 | "exact" rewrites the routes at the prefix with its text and the next hop; any other match type rewrites the routes within the prefix with the next hop; the count returned is the number rewritten; a prefix that does not parse is refused; repeating the call is idempotent (`Radix.UpdateIdempotent`) |
| Radix.UpdateIdempotent | service/lib/radix_tree.py:160-212 | repeating `update_metric` with the same arguments returns the same count and leaves the routes as the first call left them |
| Radix.RadixTree.CollectRoutes | service/lib/radix_tree.py:240-247 | the routes collected are the list passed in plus every route below the node |
| Radix.RadixTree.GetAllRoutes | service/lib/radix_tree.py:233-238 | every stored route, as many as `route_count` |
| Routes.SubnetIffBelow | service/main.py:168-177 | a network is a subnet of a prefix exactly when its trie position lies below the prefix's |
| Routes.MaskTestIffContains | service/lib/data.py:120 | `mask & address == network` holds exactly when the network contains the address |
| Service.BestIndex | service/main.py:88 | the winner's key is least among all routes, and no earlier route has a key at most the winner's (a stable sort's first element) |
| Service.BestIndexUnique | service/main.py:88 | those two properties determine the winner |
| Service.Choose | service/main.py:84-90 | nothing exactly for an empty lookup |
| Service.ChooseCovering | service/main.py:81-90 | the memo answers nothing exactly when no stored route contains the address; otherwise a stored route that contains it, with the longest prefix, then the lowest metric, then the lowest next hop among all that do |
| Service.CollectMembers | service/main.py:84 | the routes looked up are exactly the stored routes containing the address |
| Service.Pick | service/main.py:154 | `df.filter(mask)` keeps exactly the rows the mask accepts, in frame order |
| Service.SetMetricWhere | service/main.py:157-159 | the rows the mask accepts get the metric; the others stay |
| Service.MatchingPrefixes | service/main.py:184-187 | the loop gathers the prefix texts of the candidates that are subnets of the prefix |
| Service.ExactHitIff | service/main.py:153 | the "exact" mask accepts a row exactly when the trie's "exact" update selects its route |
| Service.SubnetHitIff | service/main.py:168-177 | `is_subnet_of_prefix` accepts a row's prefix exactly when its network is a subnet of the prefix, which is when the trie's "orlonger" update selects the route (given the next hop) |
| Service.OrlongerHitIff | service/main.py:180-202 | the "orlonger" update mask accepts a row exactly when the trie's "orlonger" update selects its route |
| Service.UpdateInSync | service/main.py:123-211 | after `lpm_update` the frame and the trie hold the same routes; the rows returned are exactly the routes the trie rewrote, in the same order |
| Service.UpdateKeepsInStep | service/main.py:123-211 | an update keeps the frame and the trie in step, and returns as many rows as the trie rewrites |
| Service.UpdateKeepsCoherent | service/main.py:439-446 | the memo stays correct: kept when nothing changed, cleared otherwise |
| Service.RoutingService.constructor | service/main.py:53-58 | start-up builds the trie from the prepared frame with an empty memo, and the service invariant holds |
| Service.RoutingService.Health | service/main.py:265-283 | reports the frame's and the trie's route counts, healthy exactly when they are equal, which the invariant guarantees |
| Service.RoutingService.CachedLookup | service/main.py:80-103 | the answer is the best route the current trie gives for the address; the memo gains that entry and the invariant holds |
| Service.RoutingService.GetNh | service/main.py:310-374 | a prefix that does not parse gives 400; otherwise the memo answers for its network address, 404 when no route contains it; the sort branch is never reached |
| Service.RoutingService.LpmUpdate | service/main.py:123-211 | with the polars meaning of the frame calls, returns the updated frame and the matched rows; the trie's routes become those rewritten by `update_metric` on the prefix's canonical text; the route count stays |
| Service.FrameUpdateAsWritten | service/main.py:151-204 | the pandas frame refuses the first frame call of both branches, so `lpm_update` raises on every input; a polars frame answers every call and gives the update `LpmUpdate` makes |
| Service.RoutingService.ApplyUpdateOn | service/main.py:433-450 | where a frame call of `lpm_update` raises, the reply is 500 and the frame, the trie and the memo are unchanged; otherwise as `ApplyUpdate` |
| Service.RoutingService.ApplyUpdate | service/main.py:433-450 | after the update the frame and the trie are updated together; the reply is 404 when no route matched, else the count; the memo is cleared exactly when some route changed |
| Service.RoutingService.Update | service/main.py:398-450 | a metric outside 1..max_metric gives 400; then a prefix or next hop that does not parse gives 400; each refusal changes nothing; otherwise an "orlonger" update: the trie's selected routes get the metric, the new frame is `lpm_update`'s updated frame, the reply is 404 or the count, and the memo is cleared exactly when some route changed |
| Service.RoutingService.UpdateMatch | service/main.py:480-541 | as `Update`, with a match type other than "orlonger" or "exact" refused after the metric check and before the addresses |
| Service.RoutingService.UpdateAsWritten | service/main.py:398-450 | as written, on the pandas frame: the same 400 replies as `Update`, and 500 for every valid request, with nothing changed |
| Service.RoutingService.UpdateMatchAsWritten | service/main.py:480-541 | as written, on the pandas frame: the same 400 replies as `UpdateMatch`, and 500 for every valid request, with nothing changed |
| Utils.HexWidthIsHexLen | service/utils/data.py:173 | `1 << (version − 1)` is 8 for IPv4 and 32 for IPv6, the digit counts of the columns |
| Utils.WidthMatchIff | service/utils/data.py:170-182 | on a well-formed row the `lpm_map` test is the integer test of `lpm_itr` |
| Utils.LpmMapIsScan | service/utils/data.py:170-182 | on well-formed rows `lpm_map` returns the `lpm_itr` frame |
| Utils.OrlongerAsWrittenIff | service/utils/data.py:211-215 | as written, "orlonger" picks a row exactly when it has the next hop, a length other than 0, and its network contains the prefix's network address |
| Utils.WithinIffSubnet | service/utils/data.py:211 | a row lies within a prefix (same version, at least as long, address under the netmask equal to the network) exactly when its network is a subnet of the prefix |
| Utils.WithinHitIff | service/utils/data.py:211 | the corrected "orlonger" test accepts a row exactly when the trie's "orlonger" update selects its route |
| Utils.PickedIsTrieSelection | service/utils/data.py:205-218 | with the corrected "orlonger", the rows `lpm_update` picks are the routes the trie's `update_metric` selects, in frame order, for both match types |
| Utils.LpmUpdateIsTrieUpdate | service/utils/data.py:205-218 | with the corrected "orlonger", the frame `lpm_update` returns holds exactly the routes `update_metric` rewrote, as they are after the update |
| Utils.OrlongerMissesSubnet | service/utils/data.py:211-215 | for the update of 192.168.0.0/16, the route 192.168.1.0/24 is within the prefix and selected by the trie and the corrected code, but `lpm_update` as written does not return it |
| Utils.OrlongerTakesSupernet | service/utils/data.py:211-215 | for the update of 10.1.0.0/16, the route 10.0.0.0/8 is returned by `lpm_update` as written, but neither the trie nor the corrected code selects it |
| Utils.MinNhn | service/utils/data.py:134-135 | nothing exactly when the frame has no row of the version; otherwise an `nhn` of such a row that no other such row undercuts |
| Utils.Normalised | service/utils/data.py:134-135 | `nhn -= min` keeps the frame's length, changes no column but `nhn`, and leaves the rows of other versions alone; every `nhn` stays non-negative |
| Utils.NormalisedKeepsOrder | service/utils/data.py:134-135 | normalising keeps the differences between the family's `nhn`, and so their order |
| Utils.NormalisedMin | service/utils/data.py:134-135 | after normalising, the family's least `nhn` is 0 |
| Utils.NormalisedIdempotent | service/utils/data.py:134-135 | normalising twice is normalising once |
| Utils.NormalisedOtherMin | service/utils/data.py:150-151 | normalising one family leaves the other family's minimum alone |
| Utils.PrepChunkMinZero | service/utils/data.py:121-153 | after `__prep_df` the least `nhn` of each family present is 0, and an absent family stays absent |
| Utils.FamilyMin | service/utils/data.py:134-135 | the pass returns the family's minimum |
| Utils.Subtract | service/utils/data.py:135 | each row of the family loses `m` from `nhn` in place; no other row changes |
| Utils.NormaliseNhn | service/utils/data.py:134-135 | the frame becomes its normalised form, in place |
| Utils.PrepChunk | service/utils/data.py:108-153 | the per-row arithmetic, then the IPv4 and then the IPv6 normalisation; nothing when a row does not parse |

## Left out

- I/O is not modelled: reading the routes file, HTTP and FastAPI, logging, Prometheus counters, timing, the progress prints of `build_radix_tree`, and the environment reads of `service/config.py`. `max_metric` is a constructor parameter.
- The frame lock is not modelled, because every endpoint is a method on one object and there is no concurrency. The memo is an unbounded map, so LRU eviction after 10000 entries is not modelled. A memo entry that an eviction would drop is only recomputed, to the same answer.
- `ipaddress` is the parameter `IpLib`. Its parsing rules are not modelled beyond the hypotheses `Table.Sound`, `Table.Canonical` and `Table.Reads`. `Table.Consistent`, which the frame and trie lemmas require, follows from `Table.Sound` and `Table.Reads` by `Table.PrepDfConsistent` for a loaded frame whose prefixes all parse.
- `Service.RoutingService.constructor` takes the prepared frame and requires `Table.Consistent` of it. It does not model the start-up failure when a prefix does not parse, where `build_radix_tree` raises and the service does not start.
- Python `int()` on texts with signs, spaces or underscores is not modelled. `Text.Decimal` accepts digit runs only.
- pandas and polars are not modelled: `read_csv`, dtypes, the `UInt` casts and `astype('object')`. Row indices are not modelled either; a frame is a sequence in frame order.
- `get_df_polars` in both data files is not modelled. It is an alternative loader with the same columns.
- The multiprocessing split of `service/utils/data.py:102-105` is not modelled. The source normalises `nhn` separately in each chunk, so across chunks the minimum is not 0 and `nhn` order is not kept. `Utils.PrepChunk` models one chunk.
- `Utils.PrepChunk` reuses `Table.PrepRow` for the per-row columns. The two data files compute them with the same expressions.
- `RouteInfo` objects are modelled as values. `update_metric` rewrites a record inside its node's list. Lists returned earlier are never read after an update, because the memo is cleared. So sharing between them cannot be observed.
- `RouteInfo.version` is not a separate field: it is the family of the route's network.
- `Service.RoutingService.GetNh`: the `sort_values` branch of `get_nh` (`service/main.py:363-369`) is proved unreachable, so it is not modelled further.
- `Service.BestIndex` models the order of ties as the trie walk's order (stable sort). It does not model the trie's internal list order beyond what `Radix.RadixTree.Lookup` states.
- `Radix.RadixTree.CollectRoutes` and `Radix.RadixTree.GetAllRoutes` state their result as a multiset. The pre-order of the collected list is not stated.
- `Table.LookupIsScan` states equality as multisets. The trie orders routes by prefix length, the scan by frame position.
- `Service.RoutingService.LpmUpdate`, `Service.RoutingService.Update` and `Service.RoutingService.UpdateMatch` follow the polars meaning of the frame calls. As written, these calls raise on the pandas frame (see "## Findings"); `Service.RoutingService.UpdateAsWritten` and `Service.RoutingService.UpdateMatchAsWritten` model that.
- `Service.FrameUpdateAsWritten` models pandas only by which of the calls raise. Which exception is raised, and its message, are not modelled.
- The `prefixlen != 0` filter of `service/utils/data.py:214` has no counterpart in the corrected "orlonger" (`Utils.Picked`), because the trie's update does not exclude default routes.

## Findings

| source | as written | input that shows it | evidently intended | confidence | as-written member | corrected member |
|---|---|---|---|---|---|---|
| service/utils/data.py:211-215 | "orlonger" takes the rows `lpm_map` finds for the prefix's network address: the routes that cover that address, not the routes within the prefix | update 192.168.0.0/16 via 10.0.0.1 with the route 192.168.1.0/24 via 10.0.0.1: the route is within the prefix but not returned. Update 10.1.0.0/16 via 10.0.0.1 with the route 10.0.0.0/8 via 10.0.0.1: the route is returned but is wider than the prefix | the routes within the prefix with the next hop, as the comment on line 211 says and as the trie's `update_metric` selects | not executed | Utils.OrlongerMissesSubnet | Utils.LpmUpdateIsTrieUpdate |
| service/main.py:151-204 | `lpm_update` calls `df.filter` with a polars expression and `df.with_columns`, but `df` is the pandas frame `get_df_polars` returns (service/lib/data.py:39-56). pandas reads the argument of `filter` as column labels and has no `with_columns`, so the first frame call raises before `update_metric` runs | any valid `/update` or `/update_match` request: the reply is 500, and the frame, the trie and the memo are unchanged | the polars meaning: the matched routes are updated in the frame and in the trie together, with 404 or the count as the reply | not executed; depends on pandas refusing a polars expression in `filter` | Service.RoutingService.UpdateAsWritten | Service.RoutingService.Update |
