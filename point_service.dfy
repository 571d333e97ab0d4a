/** The point service: per-user charge and use, each bracketed by the user's
    lock, over the balance table and the history table. */
module Point {
  import opened JavaLong
  import opened PointLedger

  /** A lock handle; only its identity matters here (one per user, never shared). */
  class KeyLock {
  }

  class PointService {
    /** The balance table: user id to stored record. */
    var points: map<Long, UserPoint>
    /** The history table: every entry, in insertion order. */
    var history: seq<PointHistory>
    /** The lock registry: user id to that user's lock handle. */
    var locks: map<Long, KeyLock>
    /** The ids whose lock is currently held. */
    ghost var held: set<Long>

    /** Held locks are registered, and no two users share a handle. */
    ghost predicate RegistryValid()
      reads this
    {
      && held <= locks.Keys
      && forall a, b :: a in locks && b in locks && a != b ==> locks[a] != locks[b]
    }

    ghost predicate Valid()
      reads this
    {
      RegistryValid() && Consistent(points, history)
    }

    /** The service over the tables it is given, with an empty lock registry. */
    constructor (points0: map<Long, UserPoint>, history0: seq<PointHistory>)
      requires Consistent(points0, history0)
      ensures Valid()
      ensures points == points0 && history == history0 && locks == map[] && held == {}
    {
      points, history, locks := points0, history0, map[];
      held := {};
    }

    /** `getPoint`: a read-through to the balance table, no lock taken. */
    function GetPoint(id: Long): UserPoint
      reads this`points
    {
      SelectById(points, id)
    }

    /** `getHistory`: a read-through to the history table, no lock taken. */
    function GetHistory(id: Long): seq<PointHistory>
      reads this`history
    {
      SelectAllByUserId(history, id)
    }

    /** What `getPoint` returns is what `getHistory` lists, folded: zero plus
        the charges minus the uses, in `long` arithmetic. */
    lemma BalanceMatchesHistory(id: Long)
      requires Valid()
      ensures GetPoint(id) == UserPoint(id, Wrap(Fold(GetHistory(id))))
    {
      ConsistentBalance(points, history, id);
    }

    /** A user with no history reads as a zero balance. */
    lemma NoHistoryReadsZero(id: Long)
      requires Valid()
      requires GetHistory(id) == []
      ensures GetPoint(id) == UserPoint(id, 0)
    {
      BalanceMatchesHistory(id);
      WrapInRange(0);
    }

    /** `lock`: fetches the user's handle, creating it first if there is none,
        and acquires it. */
    method Lock(id: Long)
      requires RegistryValid()
      requires id !in held
      modifies this`locks, this`held
      ensures RegistryValid()
      ensures held == old(held) + {id}
      ensures ComputedIfAbsent(old(locks), locks, id)
      ensures id !in old(locks) ==> fresh(locks[id])
    {
      if id !in locks {
        var handle := new KeyLock;
        locks := locks[id := handle];
      }
      held := held + {id};
    }

    /** `unlock`: releases the user's handle if there is one, and otherwise does nothing. */
    method Unlock(id: Long)
      requires RegistryValid()
      requires id in locks ==> id in held
      modifies this`held
      ensures RegistryValid()
      ensures held == if id in locks then old(held) - {id} else old(held)
    {
      if id in locks {
        held := held - {id};
      }
    }

    /** The balance table's `insertOrUpdate`, done only under the user's lock. */
    method InsertOrUpdate(id: Long, point: Long) returns (r: UserPoint)
      requires id in held
      modifies this`points
      ensures r == UserPoint(id, point)
      ensures points == old(points)[id := r]
    {
      r := UserPoint(id, point);
      points := points[id := r];
    }

    /** The history table's `insert`, done only under the user's lock. */
    method InsertHistory(id: Long, amount: Long, kind: TransactionType)
      requires id in held
      modifies this`history
      ensures history == old(history) + [PointHistory(id, amount, kind)]
    {
      history := history + [PointHistory(id, amount, kind)];
    }

    /** `charge`: under the user's lock, stores the balance plus `amount`
        (wrapping as `long` does), appends one CHARGE entry, and returns the
        stored record; the lock is released on exit. */
    method Charge(id: Long, amount: Long) returns (charged: UserPoint)
      requires Valid()
      requires id !in held
      modifies this
      ensures Valid()
      ensures held == old(held)
      ensures ComputedIfAbsent(old(locks), locks, id)
      ensures id !in old(locks) ==> fresh(locks[id])
      ensures charged == UserPoint(id, Wrap(old(GetPoint(id)).point + amount))
      ensures points == old(points)[id := charged]
      ensures history == old(history) + [PointHistory(id, amount, CHARGE)]
      ensures GetPoint(id) == charged
      ensures GetHistory(id) == old(GetHistory(id)) + [PointHistory(id, amount, CHARGE)]
      ensures forall u :: u != id ==> GetPoint(u) == old(GetPoint(u)) && GetHistory(u) == old(GetHistory(u))
    {
      ghost var points0, history0 := points, history;
      Lock(id);
      var user := GetPoint(id);
      charged := InsertOrUpdate(id, Wrap(user.point + amount));
      InsertHistory(id, amount, CHARGE);
      Unlock(id);
      ghost var entry := PointHistory(id, amount, CHARGE);
      RecordPreservesConsistency(points0, history0, entry, charged);
      RecordTouchesOnlyItsUser(points0, history0, entry, charged);
    }

    /** `use`: under the user's lock, stores the balance minus `amount`
        (wrapping as `long` does), appends one USE entry, and returns the
        stored record; the lock is released on exit. */
    method Use(id: Long, amount: Long) returns (used: UserPoint)
      requires Valid()
      requires id !in held
      modifies this
      ensures Valid()
      ensures held == old(held)
      ensures ComputedIfAbsent(old(locks), locks, id)
      ensures id !in old(locks) ==> fresh(locks[id])
      ensures used == UserPoint(id, Wrap(old(GetPoint(id)).point - amount))
      ensures points == old(points)[id := used]
      ensures history == old(history) + [PointHistory(id, amount, USE)]
      ensures GetPoint(id) == used
      ensures GetHistory(id) == old(GetHistory(id)) + [PointHistory(id, amount, USE)]
      ensures forall u :: u != id ==> GetPoint(u) == old(GetPoint(u)) && GetHistory(u) == old(GetHistory(u))
    {
      ghost var points0, history0 := points, history;
      Lock(id);
      var user := GetPoint(id);
      used := InsertOrUpdate(id, Wrap(user.point - amount));
      InsertHistory(id, amount, USE);
      Unlock(id);
      ghost var entry := PointHistory(id, amount, USE);
      RecordPreservesConsistency(points0, history0, entry, used);
      RecordTouchesOnlyItsUser(points0, history0, entry, used);
    }
  }
}
