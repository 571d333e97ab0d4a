# Point ledger of `PointService`, modelled in Dafny

The service keeps a point balance per user and an append-only history of
transactions. `charge` and `use` each take the user's lock, read the user's
balance, store it moved by the amount, append one history entry (CHARGE or
USE), release the lock, and return the stored record. `getPoint` and
`getHistory` read straight through to the two tables and take no lock.

The model is sequential. Each locked `charge`/`use` is one atomic step,
which is what the per-user lock is there to guarantee.

- `java_long.dfy` (module `JavaLong`): Java's 64-bit `long`. `Wrap` gives the
  wrap-around value of a `+` or `-`.
- `point_ledger.dfy` (module `PointLedger`): the records (`UserPoint`,
  `PointHistory`, `TransactionType`). It also holds the two tables taken
  abstractly:
  - A map stands for `UserPointTable`. `SelectById` reads an unknown user as
    zero points.
  - An append-only sequence stands for `PointHistoryTable`.
    `SelectAllByUserId` lists one user's entries in insertion order.
  - The module also holds the ledger invariant `Consistent` and the lemmas
    about one charge/use step.
- `point_service.dfy` (module `Point`): class `PointService` with these fields:
  - `points`, the balance table;
  - `history`, the history table;
  - `locks`, the registry from user id to a `KeyLock` handle;
  - a ghost `held` set holding the ids whose lock is currently taken.

  `Charge` and `Use` are methods. `GetPoint` and `GetHistory` are functions
  that only read the fields. So reading twice with no mutation in between
  gives identical results.
- `point_scenarios.dfy` (module `PointScenarios`): the unit tests' scenarios,
  each replayed on a fresh service in every order the concurrent test allows.

The invariant kept by every step (`Valid`) has two parts:
1. Every user's stored balance equals:
   - that user's charges minus that user's uses, starting from zero;
   - computed in `long` arithmetic;
   - equivalently, the signed fold of what `getHistory` lists for that user.
2. No two users share a lock handle, and every held lock is registered.

Java `long` wraps at 64 bits, and the source has its range checks commented
out. So the model states balances modulo 2^64, and
`BalanceExactWithoutOverflow` gives the exact sum whenever it fits in a `long`.
The Javadoc of `use` (src/main/java/io/hhplus/tdd/point/PointService.java:81)
says a use may not overdraw the balance, but the check that would enforce it
is commented out (:92). The code accepts any amount and can drive a balance
negative, and the model follows the code.

## Model

| member | source | states |
|---|---|---|
| `JavaLong.Wrap` | src/main/java/io/hhplus/tdd/point/PointService.java:63 | the `long` result of `user.point() + amount` is congruent to the exact sum modulo 2^64 and lies in the `long` range |
| `JavaLong.WrapCongruent` | src/main/java/io/hhplus/tdd/point/PointService.java:63 | exact values that are congruent modulo 2^64 give the same `long` |
| `JavaLong.WrapInRange` | src/main/java/io/hhplus/tdd/point/PointService.java:94 | a result that fits in a `long` does not wrap |
| `JavaLong.WrapAdd` | src/main/java/io/hhplus/tdd/point/PointService.java:57-63 | adding to an already wrapped balance equals wrapping the exact running sum once |
| `PointLedger.SelectAllExactlyUsersEntries` | src/main/java/io/hhplus/tdd/point/PointService.java:39-42 | `getHistory` lists an entry if and only if it is in the history and belongs to the user, and lists each such entry exactly as many times as the history holds it |
| `PointLedger.SelectAllConcat` | src/main/java/io/hhplus/tdd/point/PointService.java:39-42 | the per-user listing keeps insertion order: the listing of a concatenation is the concatenation of the listings |
| `PointLedger.SelectAllAppend` | src/main/java/io/hhplus/tdd/point/PointService.java:66 | appending an entry adds it at the end of its own user's listing and leaves every other user's listing unchanged |
| `PointLedger.NetAppend` | src/main/java/io/hhplus/tdd/point/PointService.java:63-66 | appending an entry adds its signed amount (+ for CHARGE, - for USE) to its own user's net and nothing to any other user's net |
| `PointLedger.NetNoEntries` | src/main/java/io/hhplus/tdd/point/PointService.java:28-31 | a user with no entries has net zero |
| `PointLedger.NetIsFold` | src/main/java/io/hhplus/tdd/point/PointService.java:63-66 | charges minus uses over the whole history equals the signed fold of the user's own listed entries |
| `PointLedger.NetConcat` | src/main/java/io/hhplus/tdd/point/PointService.java:63-66 | the net of concatenated histories is the sum of their nets |
| `PointLedger.NetPermutation` | src/test/java/io/hhplus/tdd/point/PointServiceTest.java:88-97 | two histories with the same entries in any order give every user the same net |
| `PointLedger.ConsistentBalance` | src/main/java/io/hhplus/tdd/point/PointService.java:28-42 | in a consistent ledger, the balance read for any user (known or not) is that user's record holding the wrapped fold of that user's listed history |
| `PointLedger.RecordPreservesConsistency` | src/main/java/io/hhplus/tdd/point/PointService.java:57-66 | one read, store and append step keeps every balance equal to its user's folded history, and keeps every user with history stored |
| `PointLedger.RecordTouchesOnlyItsUser` | src/main/java/io/hhplus/tdd/point/PointService.java:63-66 | one step changes only its user's balance, appends its entry at the end of that user's history, and leaves every other user's balance and history unchanged |
| `PointLedger.BalancesIndependentOfOrder` | src/test/java/io/hhplus/tdd/point/PointServiceTest.java:84-113 | two consistent ledgers whose histories hold the same calls in any order give every user the same balance |
| `PointLedger.BalanceExactWithoutOverflow` | src/main/java/io/hhplus/tdd/point/PointService.java:63 | when the net fits in a `long`, the stored balance is exactly charges minus uses |
| `Point.PointService.constructor` | src/main/java/io/hhplus/tdd/point/PointService.java:13-21 | a new service keeps the balance and history tables it is given, starts with an empty lock registry and no held lock, and satisfies the invariant when the given tables do |
| `Point.PointService.BalanceMatchesHistory` | src/main/java/io/hhplus/tdd/point/PointService.java:28-31 | `getPoint(id)` returns the record of `id` whose points are the wrapped signed fold of `getHistory(id)` |
| `Point.PointService.NoHistoryReadsZero` | src/main/java/io/hhplus/tdd/point/PointService.java:28-31 | a user with no history reads as zero points |
| `Point.PointService.Lock` | src/main/java/io/hhplus/tdd/point/PointService.java:107-109 | creates a fresh handle only for an id that has none, and otherwise leaves the registry unchanged; never replaces or removes a handle; keeps handles distinct per user; marks the id held |
| `Point.PointService.Unlock` | src/main/java/io/hhplus/tdd/point/PointService.java:111-114 | releases the id's lock if the id has a handle, and does nothing if there is none; the registry is unchanged |
| `Point.PointService.InsertOrUpdate` | src/main/java/io/hhplus/tdd/point/PointService.java:63 | the balance write happens only under the user's lock; it stores and returns the record for the id and changes no other user's record |
| `Point.PointService.InsertHistory` | src/main/java/io/hhplus/tdd/point/PointService.java:66 | the history write happens only under the user's lock; it appends exactly one entry at the end |
| `Point.PointService.Charge` | src/main/java/io/hhplus/tdd/point/PointService.java:54-72 | the method does all of the following: (1) stores and returns `id`'s previous points plus `amount`, wrapped as `long`; (2) appends exactly one `(id, amount, CHARGE)` entry; (3) leaves every other user's balance and history unchanged; (4) preserves the invariant; (5) leaves the held set as it found it; (6) lets the lock registry only grow |
| `Point.PointService.Use` | src/main/java/io/hhplus/tdd/point/PointService.java:85-103 | the same six-part contract as `Charge`, except that it stores `id`'s previous points minus `amount` and appends a `(id, amount, USE)` entry |
| `PointScenarios.ChargeInEitherOrder` | src/test/java/io/hhplus/tdd/point/PointServiceTest.java:84-98 | charge 1000, then 5000 and 200 in either order, leaves user 300 with 6200 |
| `PointScenarios.UseInEitherOrder` | src/test/java/io/hhplus/tdd/point/PointServiceTest.java:100-114 | charge 1000, then use 500 and 200 in either order, leaves user 300 with 300 |
| `PointScenarios.HistoryOfThreeCalls` | src/test/java/io/hhplus/tdd/point/PointServiceTest.java:59-81 | after charge 1000, use 500 and charge 1500, user 100's history is exactly those three entries in that order, and the balance reads 2000 |

## Left out

- Thread blocking and interleaving: the model is sequential, and each locked `charge`/`use` is one atomic step. It does not model:
  - `ReentrantLock` reentrancy and thread ownership;
  - `ConcurrentHashMap`'s atomic `computeIfAbsent`;
  - the `CompletableFuture` interleavings of the tests.

  Instead, lock ownership is the ghost `held` set.
- Point.PointService.Lock: requires that the id is not already held, because a reentrant second acquisition by the same thread is not modelled.
- Point.PointService.Unlock: requires that a registered id is held, because Java's `unlock` of a lock the caller does not hold throws, and the source never does that.
- Point.PointService.constructor: requires the injected tables to be consistent with each other (for example both empty), and assumes that only this service writes to them afterwards. The fold invariant needs this. A table that already holds a balance with no history behind it is outside the model, such as the 1000-point record the unit tests stub (src/test/java/io/hhplus/tdd/point/PointServiceTest.java:48-51).
- Exception paths of the `try`/`finally`: the stores are modelled as operations that cannot fail. So the `finally` release is the last step of `Charge`/`Use`.
- Timestamps: `updateMillis` and `System.currentTimeMillis()` are wall-clock values and are left out of both records.
- History ids: the history table assigns a history entry's own id, and that id is left out.
- The amount and balance checks stay out, as in the source, where they are commented out: positive amount, the 1,000,000 ceiling, non-negative result, non-null user. `Charge`/`Use` accept any `long` amount.
- `UserPointTable` and `PointHistoryTable` are not part of this model beyond the behaviour used here:
  - a lookup that yields zero points for an unknown user;
  - an upsert that returns the written record;
  - an append;
  - a per-user listing in insertion order.
- Reads racing with writes: `getPoint`/`getHistory` take no lock in the source. In a sequential model they always see the state between two steps.
- Spring, Lombok and Mockito wiring. The tests compare a `UserPoint` to a number and run against mocked tables; the scenarios keep only their arithmetic intent.
