# Loyalty-points ledger

A model of a loyalty-points ledger canister. It keeps three string-keyed
collections: users keyed by `id`, reward tokens keyed by their `uniqueCode`,
and prizes keyed by `id`. Five update calls change them:

- `createUser`, `createToken` and `createPrize` validate their inputs and store a fresh record.
- `redeemToken` credits a user with a token's point value.
- `exchangePrize` debits a prize's price from a user and takes one unit of its stock.

Four query calls read the collections: `getOnceUser`, `getAllUser`,
`getAllToken` and `getAllPrize`.

The model has six modules:

- `Records` (records.dfy): the record types, the error kinds and `Result`.
- `Listing` (listing.dfy): how `values()` lists a collection. Every key gives its value exactly once, in an order the model leaves open.
- `LedgerSpec` (ledger_spec.dfy): the three collections as one value `Db`, and the invariant `Valid`. Every record sits under its own key, names and passwords are non-empty, and token and prize prices are positive. A prize's stock may reach 0. Each update call is also a function here: from the old `Db` to its answer and the new `Db`.
- `LedgerTrace` (ledger_trace.dfy): runs of update calls, processed one at a time to completion. Lemmas say what holds for every run.
- `Canister` (canister.dfy): the class `Ledger`. It holds the three collections as `map` fields. Its methods change those fields in place, as the update calls do. Each method is proved to match its `LedgerSpec` function and to keep `Valid`. The query calls are functions that read the fields.
- `Scenario` (scenario.dfy): a client that uses only the class's contracts. A user redeems a token and buys a prize until the stock runs out.

Identifier generation and the clock are inputs. Each creation method takes
the freshly generated id and the current time as parameters. The class
methods require the id to be absent from its collection, which is what a
fresh identifier guarantees. The `LedgerSpec` functions do not need that:
there a creation under an existing key overwrites the old record, as the
collection's `insert` does. Balances, prices and stock are `nat`.

`redeemToken` and `exchangePrize` assign only `points` and `amount`
(src/index.ts:207, 253-254), so `updatedAt` stays as it was.

## Model

| member | source | states |
|---|---|---|
| `LedgerSpec.CreateUser` | src/index.ts:56-81 | Fails with `MissingField` exactly when the name or password is empty, and then nothing changes. Otherwise it stores and returns a user with the given id, name and password, 0 points, `createdAt = now` and no `updatedAt`. Only the user collection changes, under that id. A fresh id grows it by one. The invariant is kept. |
| `LedgerSpec.CreateToken` | src/index.ts:83-108 | Fails with `MissingField` exactly when the name is empty or the point value is 0, and then nothing changes. Otherwise it stores and returns the token under its own code. A fresh code grows the token collection by one. The invariant is kept. |
| `LedgerSpec.CreatePrize` | src/index.ts:110-136 | Fails with `MissingField` exactly when the name is empty, the price is 0 or the stock is 0, and then nothing changes. Otherwise it stores and returns the prize under its id. A fresh id grows the prize collection by one. The invariant is kept. |
| `LedgerSpec.RedeemToken` | src/index.ts:187-223 | Succeeds exactly when both the user and the token are present. Answers `UserNotFound` exactly when the user is absent. Answers `TokenNotFound` exactly when the user is present and the token absent. Either rejection changes nothing. On success the user's points become the old points plus the token's value, no other field of the user changes, and the user is written back under its key. Tokens and prizes are untouched. The invariant is kept. |
| `LedgerSpec.ExchangePrize` | src/index.ts:225-272 | Succeeds exactly when the user and the prize are present, the price is at most the user's points and the stock is positive. Answers `UserNotFound`, then `PrizeNotFound`, then `NotEnoughPointsOrStock` exactly when the price exceeds the user's points or the stock is 0. Every rejection changes nothing. On success the price was at most the balance and the stock positive. The user loses exactly the price. The answered prize is the old one with one unit less. Both are written back under their keys, nothing else changes, and the invariant is kept. |
| `LedgerTrace.Apply` | src/index.ts:56-272 | Every update call keeps the invariant and never removes a key from any collection. |
| `LedgerTrace.RunKeepsValid` | src/index.ts:52-272 | After any run of update calls from a valid state, every record is still under its own key, and the validated fields still hold: names and passwords non-empty, token and prize prices positive. |
| `LedgerTrace.RunNeverDeletes` | src/index.ts:52-272 | No run of update calls removes a user, a token or a prize. |
| `LedgerTrace.StockConservation` | src/index.ts:248-258 | Along any run that does not re-create the prize, its remaining stock plus the number of successful exchanges of it equals its initial stock. So it is never exchanged more often than it had units. |
| `LedgerTrace.BalanceEquation` | src/index.ts:199-260 | Along any run that does not re-create the user, their final balance plus every price debited by their successful exchanges equals their initial balance plus every value credited by their successful redemptions. |
| `LedgerTrace.TokenSurvives` | src/index.ts:199-219 | A token that exists before a run, and that the run does not re-create, exists after it unchanged. Redeeming never consumes a token. |
| `LedgerTrace.TokenStillRedeemable` | src/index.ts:199-219 | After any such run, every existing user can still redeem that token, for the token's full original value. |
| `Listing.Values` | src/index.ts:161-181 | Lists one value per stored key: as many values as keys, the value at each position is the one stored under the key at that position of `Enumerate`, and every stored value is listed. |
| `Listing.Enumerate` | src/index.ts:161 | An enumeration of a collection's keys lists every key and only keys, each exactly once. |
| `Canister.Ledger.constructor` | src/index.ts:52-54 | The three collections start empty, which satisfies the invariant. |
| `Canister.Ledger.CreateUser` | src/index.ts:56-81 | With a fresh id, the new state and answer are those of `LedgerSpec.CreateUser`, and the invariant is kept. A rejection leaves the object unchanged. On success `GetOnceUser(id)` answers the new user and the user count grows by one. |
| `Canister.Ledger.CreateToken` | src/index.ts:83-108 | With a fresh code, the new state and answer are those of `LedgerSpec.CreateToken`, and the invariant is kept. A rejection changes nothing. On success the token is stored under its code and the token count grows by one. |
| `Canister.Ledger.CreatePrize` | src/index.ts:110-136 | With a fresh id, the new state and answer are those of `LedgerSpec.CreatePrize`, and the invariant is kept. A rejection changes nothing. On success the prize is stored under its id and the prize count grows by one. |
| `Canister.Ledger.GetOnceUser` | src/index.ts:138-155 | Answers `Ok(u)` exactly when `id` is stored, with `u` the stored user. Otherwise it answers `Err(UserNotFound)`. It only reads the collections and changes nothing. |
| `Canister.Ledger.GetAllUser` | src/index.ts:157-165 | Lists as many users as are stored. Every stored user is listed, and only stored users. In a valid state no id is listed twice. |
| `Canister.Ledger.GetAllToken` | src/index.ts:177-185 | Lists as many tokens as are stored. Every stored token is listed, and only stored tokens. In a valid state no code is listed twice. |
| `Canister.Ledger.GetAllPrize` | src/index.ts:167-175 | Lists as many prizes as are stored. Every stored prize is listed, and only stored prizes. In a valid state no id is listed twice. |
| `Canister.Ledger.RedeemToken` | src/index.ts:187-223 | The new state and answer are those of `LedgerSpec.RedeemToken`, and the invariant is kept. A rejection changes nothing. Tokens and prizes never change. |
| `Canister.Ledger.ExchangePrize` | src/index.ts:225-272 | The new state and answer are those of `LedgerSpec.ExchangePrize`, and the invariant is kept. A rejection changes nothing. Tokens never change. |
| `Scenario.AliceBuysMugs` | src/index.ts:56-272 | A new user redeems a 100-point token, then exchanges a 50-point prize with two units twice. That leaves 0 points and 0 units. A third exchange is refused with `NotEnoughPointsOrStock`. |

## Left out

- The canister decorators `$query`/`$update` and the stable-memory persistence of the collections, including their capacity parameters. These belong to the canister library.
- The storage-failure `catch` branches of every call. A failed `insert` or `values()` is not modelled, so creation, redemption and exchange fail only for the reasons above, and `GetAllUser`, `GetAllToken` and `GetAllPrize` return their sequence directly rather than a `Result`.
- `LedgerSpec.RedeemToken`: does not model the `nat64` upper bound on `points + point`. That bound would be enforced by serialization, which is not part of this model. Balances are unbounded `nat`.
- `Canister.Ledger.RedeemToken`: does not model the `nat64` upper bound either, for the same reason.
- `Canister.Ledger.GetAllUser`: does not fix the order of the listing, because that order is defined by the collection library. The same holds for `Canister.Ledger.GetAllToken` and `Canister.Ledger.GetAllPrize`. Because the order is left open, these three are ghost functions.
- Identifier generation (`uuidv4()`) and the random-byte shim that feeds it. These are randomness and floating point; the fresh id is a parameter instead.
- The canister clock `ic.time()`. The current time is a parameter instead.
- The `typeof id !== 'string'` checks. In a typed model they cannot fail.
- The exact error-message texts. The model distinguishes only the kind of error.
- Password handling beyond storing the string.
