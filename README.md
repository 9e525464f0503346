# Session registry of a multiplayer matchmaking server

This project models `GameManager`, the session registry of the Impostor
server. The registry is a table from a numeric game code to a game. It also
holds claims in a cluster-wide node directory, which maps a game's display
code to the address of the node that owns the game. It has four operations:

- **Create** makes one attempt to claim a generated code. It first asks the
  directory. Only if the directory has no entry for the display code does it
  try the local insert-if-absent. Only if that insert succeeds does it write
  the directory claim. On failure it returns null and neither table changes.
- **Find** looks up a code in the local table.
- **FindListings** scans the local games in the dictionary's iteration order.
  It yields the public, not-started, not-full games whose language tag matches
  and, when a nonzero impostor count is asked for, whose impostor count
  matches. It stops after `count` results.
- **Remove** releases the directory claim for the display code, then drops
  the local entry. Neither has to exist beforehand.

Files:

- `games.dfy` (module `Games`): the game fields and options the registry
  reads. `Game` is a class because the game's own logic changes its
  visibility, state and player count in place, and the registry holds
  references to games.
- `discovery.dfy` (module `Discovery`): the listing criteria, the
  order-preserving filter, the truncation to `count`, and lemmas about
  appending, prefixes and early exit. The scan order of the admitted games is
  fixed by the definition of `Filter`. `FilterAppend` states the order
  outright: what an earlier stretch of the scan admits comes before what a
  later stretch admits.
- `manager.dfy` (module `Manager`): the two tables as a value (`Tables`), the
  effect of a creation (`Claimed`) and of a removal (`Released`), and lemmas
  about them. It also holds the `GameManager` class, with its fields `games`
  and `directory` and one method per operation. `Create` and `Remove` are
  proved against `Claimed` and `Released`. `FindListings` is proved against
  `Listings`. Every method keeps the class invariant `Valid()`: each entry
  records its own code, and each local game's display code is claimed for
  this node in the directory.

Inputs that the model takes as parameters:

- The generated code is an argument of `Create`, because generation is random.
- The display-code function `GameCode.IntToGameName` is a constant of the
  manager (`gameName: int -> string`) given to its constructor. Its definition
  is not part of this model. The only property assumed is that distinct codes
  have distinct display codes.
- The node directory's contents at startup are a constructor argument. Other
  nodes may already hold claims there.
- The dictionary's iteration order is a sequence of keys, `order`, given to
  `FindListings`. The enumerator lists every key once (`IsEnumeration`), and
  `EnumerateVisitsAll` shows that the scan then visits every registered game.
  `FindListings` itself is proved for any sequence of registered codes.

What the code does not do, and the model therefore does not do either:

- `Create` makes a single attempt. It does not retry with another code and
  has no rollback step. In this sequential model no partial claim can arise:
  the directory is written only after the local insert has succeeded, and the
  local insert is tried only after the directory check has passed.
- `FindListings` has no hard upper bound on its results. The counter is
  compared for equality after each increment, so for `count <= 0` it never
  matches and every admitted game is yielded. `Discovery.Listings` states
  both cases.
- `Remove` releases the display code in the directory even when no local game
  has the code. That entry may belong to another node.

## Model

| member | source | states |
|---|---|---|
| `Games.Game.constructor` | src/Impostor.Server/Net/Manager/GameManager.cs:36 | A new game carries the generated code and the given options. |
| `Discovery.Filter` | src/Impostor.Server/Net/Manager/GameManager.cs:61-73 | Every game kept is one of the scanned games and passes all five tests: public, `NotStarted`, fewer than 10 players, keyword equal to the language, and impostor count equal to the requested one unless that is 0. Every scanned game that passes is kept. The map id is not tested. |
| `Discovery.Listings` | src/Impostor.Server/Net/Manager/GameManager.cs:76-82 | The yielded games are a prefix of the admitted games in scan order, and each one passes the filter. For `count >= 1` there are exactly `min(count, #admitted)` of them. For `count <= 0` all admitted games are yielded. |
| `Discovery.FilterAppend` | src/Impostor.Server/Net/Manager/GameManager.cs:61-83 | Scanning two stretches of games one after the other admits what the first admits, followed by what the second admits, so scan order is kept. |
| `Discovery.FilterSubMultiset` | src/Impostor.Server/Net/Manager/GameManager.cs:61-76 | No game is yielded more often than the scan visits it. |
| `Discovery.FilterPrefix` | src/Impostor.Server/Net/Manager/GameManager.cs:61-83 | Scanning a prefix of the games admits a prefix of what the full scan admits. |
| `Discovery.StopsEarly` | src/Impostor.Server/Net/Manager/GameManager.cs:79-82 | Once a prefix of the scan has admitted `count >= 1` games, the games after it do not change the result. |
| `Discovery.ScanComplete` | src/Impostor.Server/Net/Manager/GameManager.cs:61-83 | A scan that ends after the last game, or right after the `count`-th admitted game, has admitted exactly what the request yields. |
| `Manager.Enumerate` | src/Impostor.Server/Net/Manager/GameManager.cs:61 | Every game the scan visits is a registered game. |
| `Manager.EnumerateVisitsAll` | src/Impostor.Server/Net/Manager/GameManager.cs:61 | When the order lists every key once, the scan visits every registered game. |
| `Manager.ScannedIsRegistered` | src/Impostor.Server/Net/Manager/GameManager.cs:61 | A game found anywhere in the scan is a registered game. |
| `Manager.ListingsAreRegistered` | src/Impostor.Server/Net/Manager/GameManager.cs:61-76 | Every game a listing request yields is a registered game that passes the criteria. |
| `Manager.ReleaseUndoesClaim` | src/Impostor.Server/Net/Manager/GameManager.cs:86-91 | Removing a code right after a successful creation of it restores both the local table and the directory. |
| `Manager.ReleaseIdempotent` | src/Impostor.Server/Net/Manager/GameManager.cs:89-90 | A second removal of the same code leaves both tables as the first removal left them. |
| `Manager.ClaimIsExclusive` | src/Impostor.Server/Net/Manager/GameManager.cs:38-41 | After a successful creation, no creation with the same numeric code or the same display code can succeed. |
| `Manager.ClaimKeepsOwned` | src/Impostor.Server/Net/Manager/GameManager.cs:38-41 | If every local game's display code is claimed for this node in the directory, that still holds after a creation. |
| `Manager.ReleaseKeepsOwned` | src/Impostor.Server/Net/Manager/GameManager.cs:89-90 | The same invariant holds after a removal, provided no other local game has the removed game's display code. |
| `Manager.ClaimKeepsNamesDistinct` | src/Impostor.Server/Net/Manager/GameManager.cs:38-41 | If no two local games share a display code and every local game's display code is claimed, a creation whose display code is free keeps the display codes distinct, even without assuming anything about the naming function. |
| `Manager.ReleaseKeepsNamesDistinct` | src/Impostor.Server/Net/Manager/GameManager.cs:89-90 | Removal keeps the display codes of the local games distinct. |
| `Manager.ReleaseOfAbsentCodeCanDropClaim` | src/Impostor.Server/Net/Manager/GameManager.cs:89-90 | If two codes share a display code, removing the one with no local game releases the other's claim. This is why the model assumes distinct display codes. |
| `Manager.GameManager.constructor` | src/Impostor.Server/Net/Manager/GameManager.cs:22-28 | Given a naming function with distinct display codes for distinct codes, construction gives an empty local table, the given public address, the directory's current contents, and the class invariant. |
| `Manager.GameManager.Create` | src/Impostor.Server/Net/Manager/GameManager.cs:30-48 | Creation succeeds exactly when the directory has no entry for the display code and the local table has no entry for the code. On success it returns a fresh game with that code and those options. The local table gains `code -> game`, the directory gains `displayCode -> publicIp`, and `Find(code)` returns the game. On failure it returns null and neither table changes. In particular, when the directory already holds the display code, the local table is not touched. The class invariant (codes match keys, every local game's display code claimed for this node) is kept. |
| `Manager.GameManager.Find` | src/Impostor.Server/Net/Manager/GameManager.cs:50-54 | It returns the game stored under the code, or null exactly when there is none. It reads only. The game it returns carries that code. |
| `Manager.GameManager.FindListings` | src/Impostor.Server/Net/Manager/GameManager.cs:56-84 | The loop yields exactly `Listings` of the games in iteration order. Every yielded game is a registered game that passes the filter. A positive `count` bounds the number of results. `mapId` has no influence. The method changes nothing. |
| `Manager.GameManager.Remove` | src/Impostor.Server/Net/Manager/GameManager.cs:86-91 | The code leaves the local table and its display code leaves the directory, whether or not either was present. All other entries are unchanged. `Find(code)` is null afterwards. The class invariant is kept. |

## Left out

- Concurrency: the thread safety of `ConcurrentDictionary` and any interleaving of `Create`, `Remove` and a running listing scan. The model is sequential.
- `GameCode.GenerateCode` and the body of `GameCode.IntToGameName`: the first is random and the second is not part of this model. The code is an input and the display name is given by a function of which only injectivity is assumed. No round-trip law is assumed.
- The node provider's network implementation, and its failures or timeouts. The directory is a map with lookup, save and remove effects.
- Logging.
- Parsing the configured public address into an `IPEndPoint`. The address is a fixed opaque value.
- The game's internals: its constructor's other arguments (the manager, the node provider, the address) and side effects, the initial values of its visibility, state and player count, and its state machine. The `GameStates` enumeration is not part of this model. The model has `NotStarted`, `Started` and `Ended`, and the scan only tests for `NotStarted`.
- Laziness of the listing: `FindListings` returns the whole sequence a full enumeration would yield. A consumer that stops enumerating early, or state that changes during enumeration, is not captured.
- The default argument `count = 10` of `FindListings`: the model's `count` has no default.
- The width of the result counter: `results` in `FindListings` is a 32-bit C# `int`. It would wrap around after 2^31 matches, which a registry cannot hold in practice. The model counts with an unbounded integer.
- Manager.GameManager.constructor: requires the display-code function to give distinct display codes for distinct codes. The source's `GameCode.IntToGameName` is not part of this model. Without this property, `Remove` of a code with no local game can drop a live game's claim (`ReleaseOfAbsentCodeCanDropClaim`), and the ownership part of the invariant would not hold.
