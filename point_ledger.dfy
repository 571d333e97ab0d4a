/** The records the point service stores, the two stores it writes to
    (the balance table and the history table, taken as a map and an
    append-only sequence), and the ledger invariant that ties them together. */
module PointLedger {
  import opened JavaLong

  datatype TransactionType = CHARGE | USE

  /** One user's balance record, as the balance table stores and returns it. */
  datatype UserPoint = UserPoint(id: Long, point: Long)

  /** One history entry, as the history table stores it. */
  datatype PointHistory = PointHistory(userId: Long, amount: Long, kind: TransactionType)

  /** The balance table's `selectById`: the stored record, or a zero record for an unknown user. */
  function SelectById(points: map<Long, UserPoint>, id: Long): UserPoint
  {
    if id in points then points[id] else UserPoint(id, 0)
  }

  /** The history table's `selectAllByUserId`: the entries of `u`, in insertion order. */
  function SelectAllByUserId(history: seq<PointHistory>, u: Long): seq<PointHistory>
  {
    if history == [] then []
    else
      var rest := SelectAllByUserId(history[..|history| - 1], u);
      var last := history[|history| - 1];
      if last.userId == u then rest + [last] else rest
  }

  /** The signed effect of one entry on its user's balance. */
  function Signed(e: PointHistory): int
  {
    match e.kind
    case CHARGE => e.amount
    case USE => -(e.amount as int)
  }

  /** The exact sum of the amounts of `u`'s entries of one kind. */
  function SumOf(history: seq<PointHistory>, u: Long, kind: TransactionType): int
  {
    if history == [] then 0
    else
      var last := history[|history| - 1];
      SumOf(history[..|history| - 1], u, kind) + (if last.userId == u && last.kind == kind then last.amount else 0)
  }

  /** `u`'s charged amounts minus `u`'s used amounts, starting from zero. */
  function Net(history: seq<PointHistory>, u: Long): int
  {
    SumOf(history, u, CHARGE) - SumOf(history, u, USE)
  }

  /** Left fold of a list of entries by their signed amounts, starting from zero. */
  function Fold(entries: seq<PointHistory>): int
  {
    if entries == [] then 0 else Fold(entries[..|entries| - 1]) + Signed(entries[|entries| - 1])
  }

  /** `u`'s stored balance, if there is one, is `u`'s record and is `u`'s
      history folded in `long` arithmetic. */
  ghost predicate Agrees(points: map<Long, UserPoint>, history: seq<PointHistory>, u: Long)
  {
    u in points ==> points[u].id == u && points[u].point == Wrap(Net(history, u))
  }

  /** The ledger invariant: every stored balance is its user's history folded
      (in `long` arithmetic), and every user with history has a stored balance. */
  ghost predicate Consistent(points: map<Long, UserPoint>, history: seq<PointHistory>)
  {
    && (forall u :: Agrees(points, history, u))
    && (forall i :: 0 <= i < |history| ==> history[i].userId in points)
  }

  /** The registry's `computeIfAbsent`: `after` holds a handle for `k`; it is the
      old one if `k` had one, and otherwise the only change is the new entry. */
  predicate ComputedIfAbsent<K, V(==)>(before: map<K, V>, after: map<K, V>, k: K)
  {
    && k in after
    && (k in before ==> after == before)
    && (k !in before ==> after == before[k := after[k]])
  }

  /** Appending an entry adds its signed amount to its own user's net and nothing to anyone else's. */
  lemma NetAppend(history: seq<PointHistory>, e: PointHistory, u: Long)
    ensures Net(history + [e], u) == Net(history, u) + (if e.userId == u then Signed(e) else 0)
  {
    assert (history + [e])[..|history|] == history;
  }

  /** Appending an entry adds it at the end of its own user's history and nowhere else. */
  lemma SelectAllAppend(history: seq<PointHistory>, e: PointHistory, u: Long)
    ensures SelectAllByUserId(history + [e], u)
         == SelectAllByUserId(history, u) + (if e.userId == u then [e] else [])
  {
    assert (history + [e])[..|history|] == history;
  }

  /** `selectAllByUserId` lists exactly the user's entries, each as many times
      as the history holds it. */
  lemma {:induction false} SelectAllExactlyUsersEntries(history: seq<PointHistory>, u: Long)
    ensures forall e :: e in SelectAllByUserId(history, u) <==> e in history && e.userId == u
    ensures forall e :: multiset(SelectAllByUserId(history, u))[e] == if e.userId == u then multiset(history)[e] else 0
  {
    if history != [] {
      var front, last := history[..|history| - 1], history[|history| - 1];
      assert history == front + [last];
      assert multiset(history) == multiset(front) + multiset{last};
      SelectAllExactlyUsersEntries(front, u);
    }
  }

  /** A user's entries are kept in insertion order: selecting from a concatenation
      is concatenating the selections. */
  lemma {:induction false} SelectAllConcat(h1: seq<PointHistory>, h2: seq<PointHistory>, u: Long)
    ensures SelectAllByUserId(h1 + h2, u) == SelectAllByUserId(h1, u) + SelectAllByUserId(h2, u)
    decreases |h2|
  {
    if h2 == [] {
      assert h1 + h2 == h1;
    } else {
      var front, last := h2[..|h2| - 1], h2[|h2| - 1];
      assert h2 == front + [last];
      assert h1 + h2 == (h1 + front) + [last];
      SelectAllConcat(h1, front, u);
      SelectAllAppend(h1 + front, last, u);
      SelectAllAppend(front, last, u);
    }
  }

  /** A user none of whose entries are in the history has net zero. */
  lemma {:induction false} NetNoEntries(history: seq<PointHistory>, u: Long)
    requires forall i :: 0 <= i < |history| ==> history[i].userId != u
    ensures Net(history, u) == 0
  {
    if history != [] {
      var front := history[..|history| - 1];
      assert history == front + [history[|history| - 1]];
      NetNoEntries(front, u);
      NetAppend(front, history[|history| - 1], u);
    }
  }

  /** Charges minus uses over the whole history equals the signed fold of the
      user's own entries, as `selectAllByUserId` lists them. */
  lemma {:induction false} NetIsFold(history: seq<PointHistory>, u: Long)
    ensures Net(history, u) == Fold(SelectAllByUserId(history, u))
  {
    if history != [] {
      var front, last := history[..|history| - 1], history[|history| - 1];
      assert history == front + [last];
      NetIsFold(front, u);
      NetAppend(front, last, u);
      SelectAllAppend(front, last, u);
      var mine := SelectAllByUserId(front, u);
      assert (mine + [last])[..|mine|] == mine;
    }
  }

  /** Net distributes over concatenation of histories. */
  lemma {:induction false} NetConcat(h1: seq<PointHistory>, h2: seq<PointHistory>, u: Long)
    ensures Net(h1 + h2, u) == Net(h1, u) + Net(h2, u)
    decreases |h2|
  {
    if h2 == [] {
      assert h1 + h2 == h1;
    } else {
      var front, last := h2[..|h2| - 1], h2[|h2| - 1];
      assert h2 == front + [last];
      assert h1 + h2 == (h1 + front) + [last];
      NetConcat(h1, front, u);
      NetAppend(h1 + front, last, u);
      NetAppend(front, last, u);
    }
  }

  /** Two histories that record the same calls, in any order, give every user the same net. */
  lemma {:induction false} NetPermutation(h1: seq<PointHistory>, h2: seq<PointHistory>, u: Long)
    requires multiset(h1) == multiset(h2)
    ensures Net(h1, u) == Net(h2, u)
    decreases |h1|
  {
    if h1 == [] {
      assert |h2| == |multiset(h2)| == 0;
    } else {
      var front, x := h1[..|h1| - 1], h1[|h1| - 1];
      assert h1 == front + [x];
      assert x in multiset(h2);
      var i :| 0 <= i < |h2| && h2[i] == x;
      var left, right := h2[..i], h2[i + 1..];
      assert h2 == left + [x] + right;
      var rest := left + right;
      assert multiset(h2) == multiset(left) + multiset{x} + multiset(right);
      assert multiset(rest) == multiset(left) + multiset(right);
      assert multiset(h1) == multiset(front) + multiset{x};
      MultisetCancel(multiset(front), multiset(rest), x);
      NetPermutation(front, rest, u);
      NetAppend(front, x, u);
      NetConcat(left + [x], right, u);
      NetAppend(left, x, u);
      NetConcat(left, right, u);
    }
  }

  lemma MultisetCancel<T>(a: multiset<T>, b: multiset<T>, x: T)
    requires a + multiset{x} == b + multiset{x}
    ensures a == b
  {
    forall y ensures a[y] == b[y] {
      assert (a + multiset{x})[y] == (b + multiset{x})[y];
    }
  }

  /** In a consistent ledger the balance read for any user, known or not, is
      that user's listed history folded in `long` arithmetic. */
  lemma ConsistentBalance(points: map<Long, UserPoint>, history: seq<PointHistory>, id: Long)
    requires Consistent(points, history)
    ensures SelectById(points, id) == UserPoint(id, Wrap(Fold(SelectAllByUserId(history, id))))
  {
    assert Agrees(points, history, id);
    NetIsFold(history, id);
    if id !in points {
      NetNoEntries(history, id);
      WrapInRange(0);
    }
  }

  /** One charge or use step (read the balance, store it moved by the entry's
      signed amount, append the entry) keeps the ledger consistent. */
  lemma RecordPreservesConsistency(points: map<Long, UserPoint>, history: seq<PointHistory>, e: PointHistory, r: UserPoint)
    requires Consistent(points, history)
    requires r == UserPoint(e.userId, Wrap(SelectById(points, e.userId).point + Signed(e)))
    ensures Consistent(points[e.userId := r], history + [e])
  {
    var id := e.userId;
    var points' := points[id := r];
    var history' := history + [e];
    forall u
      ensures Agrees(points', history', u)
    {
      assert Agrees(points, history, u);
      NetAppend(history, e, u);
      if u == id {
        if id !in points {
          NetNoEntries(history, id);
          WrapInRange(0);
        }
        WrapAdd(Net(history, id), Signed(e));
      }
    }
    forall i | 0 <= i < |history'|
      ensures history'[i].userId in points'
    {
      if i < |history| {
        assert history'[i] == history[i];
      }
    }
  }

  /** One charge or use step changes only its own user's balance and history,
      and adds exactly its entry at the end of that user's history. */
  lemma RecordTouchesOnlyItsUser(points: map<Long, UserPoint>, history: seq<PointHistory>, e: PointHistory, r: UserPoint)
    requires r.id == e.userId
    ensures SelectById(points[e.userId := r], e.userId) == r
    ensures SelectAllByUserId(history + [e], e.userId) == SelectAllByUserId(history, e.userId) + [e]
    ensures forall u :: u != e.userId ==>
              && SelectById(points[e.userId := r], u) == SelectById(points, u)
              && SelectAllByUserId(history + [e], u) == SelectAllByUserId(history, u)
  {
    forall u ensures SelectAllByUserId(history + [e], u) == SelectAllByUserId(history, u) + (if e.userId == u then [e] else []) {
      SelectAllAppend(history, e, u);
    }
  }

  /** Final balances do not depend on call order: two consistent ledgers
      whose histories record the same calls hold the same balances. */
  lemma BalancesIndependentOfOrder(p1: map<Long, UserPoint>, h1: seq<PointHistory>,
                                   p2: map<Long, UserPoint>, h2: seq<PointHistory>, u: Long)
    requires Consistent(p1, h1) && Consistent(p2, h2)
    requires multiset(h1) == multiset(h2)
    ensures SelectById(p1, u) == SelectById(p2, u)
  {
    NetIsFold(h1, u);
    NetIsFold(h2, u);
    NetPermutation(h1, h2, u);
    ConsistentBalance(p1, h1, u);
    ConsistentBalance(p2, h2, u);
  }

  /** When the final net fits in a `long`, the stored balance is the exact
      sum of charges minus uses. */
  lemma BalanceExactWithoutOverflow(points: map<Long, UserPoint>, history: seq<PointHistory>, id: Long)
    requires Consistent(points, history)
    requires MIN <= Net(history, id) <= MAX
    ensures SelectById(points, id).point == Net(history, id)
  {
    ConsistentBalance(points, history, id);
    NetIsFold(history, id);
    WrapInRange(Net(history, id));
  }
}
