# TheraBot selection and refresh core, in Dafny

TheraBot is a Discord bot that reads the EVE-Scout directory of Thera wormhole
connections. This project models the parts of `thera.py` that compute
something:

- the refresh tick `fetch_thera_api`, which replaces the client's cached
  `wormholes` and counts the tick;
- the `thera` command, which lists the cache with a size label per record;
- the `lookup` command, which drops zero-jump artifacts from a search result,
  sorts the rest by jump count with Python's stable `sorted`, and takes the
  first record;
- the `route` command, which runs that selection for the source search and the
  destination search independently.

Files:

- `wormholes.dfy` (module `Wormholes`): the connection record, the effective
  wormhole type with its K162 fallback, the size labels, and an ASCII model of
  `str.lower`.
- `selection.dfy` (module `Selection`): the artifact filter, the stable sort
  (an insertion sort), and the closest-record selection. Each comes with its
  properties: an order-preserving subsequence, idempotence, a permutation,
  sortedness, stability, uniqueness of the stable order, and earliest
  minimality.
- `commands.dfy` (module `Commands`): `lookup` and `route` as functions of the
  HTTP responses.
- `client.dfy` (module `Client`): the `TheraBotClient` class, with its
  `FetchTheraApi` tick and the `thera` listing.

An HTTP response is the value `Response(status, payload)`. The payload is the
list the JSON body decodes to. No network, clock or scheduler is involved.

Notes on what the code does:

- `counter` is incremented at thera.py:49 on every tick that receives a
  response, whatever its status. A tick whose request raises, or whose
  status-200 body fails to decode, stops before lines 46-49 and leaves both
  `wormholes` and `counter` as they were.
- An empty filtered list raises Python's IndexError at `sorted_wormholes[0]`
  (thera.py:107, 152). The model's reply for this case is `IndexError`.
- There is no ship-class filtering; there is only the TODO at thera.py:126.
- `fetch_thera_api` is declared as a ten-minute `tasks.loop` (thera.py:42),
  but nothing in thera.py calls its `start()`. `on_ready` (thera.py:31) awaits
  the loop object directly, which runs the body once. So the cache is
  refreshed once per `on_ready` event, not every ten minutes.

## Model

| member | source | states |
|---|---|---|
| `Wormholes.EffectiveType` | thera.py:80 | the effective type is the destination tag unless that tag is exactly "K162", in which case it is the source tag; a K162 result means both tags were K162 |
| `Wormholes.TagListsDisjoint` | thera.py:74-75 | no tag is in both the freighter list and the battleship list |
| `Wormholes.SizeLabel` | thera.py:74-81 | "Large (Freighter)" exactly for tags in [E587, L031]; "Large (Battleship)" exactly for tags in [V898, F135, M164]; "Medium (Cruiser)" exactly for every other tag; always one of the three |
| `Wormholes.SizeOf` | thera.py:80-81 | a record's label is decided by its effective type; a record whose destination tag is neither K162 nor a listed tag is cruiser-sized |
| `Wormholes.Lower` | thera.py:102 | lower-casing keeps the length, maps each character through the ASCII lower-case map, and leaves no upper-case letter |
| `Wormholes.LowerIdempotent` | thera.py:102 | lower-casing twice equals lower-casing once |
| `Wormholes.CaseVariantsLowerEqual` | thera.py:102 | two names that differ only in letter case compare equal after lower-casing |
| `Selection.DropArtifacts` | thera.py:102 | a record is kept iff it is in the payload and does not have 0 jumps with a destination name that differs from the searched name ignoring case; never longer than the payload |
| `Selection.DropArtifactsIsSubsequence` | thera.py:102 | the kept records are an order-preserving subsequence of the payload |
| `Selection.DropArtifactsCounts` | thera.py:102 | each record occurs in the output as often as in the payload when it is not an artifact, and not at all when it is; with the subsequence property this fixes the output exactly |
| `Selection.DropArtifactsOfClean` | thera.py:102 | a list with no artifacts passes the filter unchanged |
| `Selection.DropArtifactsIdempotent` | thera.py:102 | filtering the filtered list with the same name returns it unchanged |
| `Selection.DropArtifactsKeepsTarget` | thera.py:102 | a record whose destination is the searched system, in any letter case, is kept even with 0 jumps |
| `Selection.DropArtifactsCaseInsensitive` | thera.py:148-149 | searching with names equal up to case gives the same filtered list |
| `Selection.SortByJumps` | thera.py:104 | the sorted list is a permutation of its input and is non-decreasing in jumps |
| `Selection.SortByJumpsIsStable` | thera.py:104 | for every jump count, the records with that count keep their input order |
| `Selection.SortByJumpsOfSorted` | thera.py:104 | a list already in jump order is returned unchanged |
| `Selection.SortByJumpsUnique` | thera.py:104 | any list in jump order that keeps each jump count's input order equals the sorted list, so the model is the one stable sort by jumps |
| `Selection.ClosestIndex` | thera.py:104-107 | a linear scan finds an index with jumps no greater than any record's and greater jumps at every earlier index |
| `Selection.SortedHeadIsClosest` | thera.py:104-107 | the head of the stably sorted list is the record found by that linear scan |
| `Selection.ClosestAtUnique` | thera.py:106 | the earliest record with the fewest jumps is unique, so the tie-break is determined by payload order |
| `Selection.Candidates` | thera.py:102-104 | the filter-then-sort list is a permutation of the filtered list, in jump order, and holds only payload records that are not artifacts |
| `Selection.CandidatesIdempotent` | thera.py:102-104 | running filter-then-sort on its own output returns that output |
| `Selection.Closest` | thera.py:107 | there is no closest record (the IndexError) iff the filtered list is empty; otherwise it is the filtered record at the linear-scan index |
| `Selection.ClosestIsEarliestMinimum` | thera.py:102-107 | the closest record is a non-artifact payload record, has jumps at most those of every kept record, is the earliest such in the filtered list, and sits at a payload index before which every record is an artifact or has more jumps |
| `Selection.KeptPayloadIndex` | thera.py:102 | the k-th kept record sits at a payload index before which every record is an artifact or one of the first k kept records |
| `Selection.EarliestInPayload` | thera.py:102-107 | the earliest kept record with the fewest jumps sits at a payload index before which every record is an artifact or has more jumps |
| `Commands.Lookup` | thera.py:95-116 | a non-200 status gives the could-not-access reply and only then; with 200 the reply is IndexError iff the filtered list is empty; an answer is the closest record with its size label |
| `Commands.LookupAnswerIsClosest` | thera.py:102-107 | the record `lookup` answers with is the earliest kept record with the fewest jumps |
| `Commands.Route` | thera.py:134-158 | a non-200 source status gives could-not-access before the destination is looked at; could-not-access iff either status is non-200; an answer pairs the closest record of each search, each with its own name, with the first record's size label |
| `Commands.RouteIsTwoLookups` | thera.py:134-152 | `route` fails to access iff one of the two lookups does, raises iff neither fails to access and one raises, and otherwise answers with the two lookups' records |
| `Commands.LookupJitaScenario` | thera.py:100-107 | for a "Jita" search returning Jita at 3 jumps, Jita at 1 jump and Amarr at 0 jumps, the filter keeps the two Jita records and `lookup` answers with the 1-jump record and its freighter label |
| `Client.TheraBotClient.constructor` | thera.py:21-26 | a new client has counter 0, no cached wormholes, an unsynced tree and an empty refresh history |
| `Client.TheraBotClient.FetchTheraApi` | thera.py:43-49 | on a received response, a non-200 status sets the cache to None, status 200 sets it to the payload, and counter goes up by exactly 1 either way; when the request or the decoding raises, counter and cache are unchanged; the synced flag is never touched; the counter equals the number of received responses and the cache reflects the latest one |
| `Client.TheraBotClient.Thera` | thera.py:67-87 | no listing iff the cache is None; otherwise one row per cached record, in order, each with the record's size label |
| `Client.FailedRefreshHidesListing` | thera.py:43-71 | after a tick that received a non-200 response the `thera` command lists nothing, the counter has still gone up by 1, and the synced flag is unchanged |
| `Client.RaisedRefreshKeepsListing` | thera.py:43-71 | after a tick whose request raises, the `thera` command lists exactly what it listed before and the counter is unchanged |

## Left out

- Discord plumbing is not modelled: command registration and tree syncing, embed building and message sending. The replies are values (`Reply`, `ListReply`) rather than embeds.
- The scheduling of `fetch_thera_api` is not modelled. The loop is declared but never started in thera.py, and `on_ready` calls the tick directly. The `before_loop` hook only matters for a started loop. The model is one tick at a time.
- Concurrency is not modelled, and a sequential model suffices. `fetch_thera_api` has no `await`, and the blocking `requests.get` holds up the event loop, so no command can observe a half-done tick.
- The HTTP calls are not modelled. Each becomes a `Response` passed in; the refresh tick also takes the `Raised` case. In `lookup` and `route`, a raising request, a body that fails to decode, or a record with missing keys raises out of the command. The model's decoded payloads are well-formed records, and those commands have no input case for a raise.
- `Commands.Route`: the destination search is issued only after the source search succeeded. The model takes both responses as inputs, so it cannot show that the second request is skipped. It shows only that the second response is then ignored.
- The hours-remaining estimate is not modelled. It parses timestamps, reads the wall clock and rounds floats.
- The rounded security status is not modelled, because it is float formatting. The record keeps the other display fields as opaque strings.
- `Wormholes.Lower`: lower-cases ASCII letters only, whereas Python's `str.lower` also maps non-ASCII letters.
- The `.title()` formatting of names in replies is not modelled, because it affects display only.
- `ping` is not modelled, because it only replies "pong".
- `server.py` is not part of this model. It is an OAuth callback web endpoint, and its only computation is the library's base64 encoding.
