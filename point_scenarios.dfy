/** The service's unit-test scenarios, replayed sequentially: each runs on a
    fresh service and states the balance or history the test expects. */
module PointScenarios {
  import opened JavaLong
  import opened PointLedger
  import opened Point

  /** Charging 1000, then 5000 and 200 in either order, leaves 6200. */
  method ChargeInEitherOrder(fiveThousandFirst: bool) returns (final: UserPoint)
    ensures final == UserPoint(300, 6200)
  {
    var sut := new PointService(map[], []);
    WrapInRange(1000);
    var first := sut.Charge(300, 1000);
    if fiveThousandFirst {
      WrapInRange(6000);
      var second := sut.Charge(300, 5000);
      WrapInRange(6200);
      var third := sut.Charge(300, 200);
    } else {
      WrapInRange(1200);
      var second := sut.Charge(300, 200);
      WrapInRange(6200);
      var third := sut.Charge(300, 5000);
    }
    final := sut.GetPoint(300);
  }

  /** Charging 1000, then using 500 and 200 in either order, leaves 300. */
  method UseInEitherOrder(fiveHundredFirst: bool) returns (final: UserPoint)
    ensures final == UserPoint(300, 300)
  {
    var sut := new PointService(map[], []);
    WrapInRange(1000);
    var first := sut.Charge(300, 1000);
    if fiveHundredFirst {
      WrapInRange(500);
      var second := sut.Use(300, 500);
      WrapInRange(300);
      var third := sut.Use(300, 200);
    } else {
      WrapInRange(800);
      var second := sut.Use(300, 200);
      WrapInRange(300);
      var third := sut.Use(300, 500);
    }
    final := sut.GetPoint(300);
  }

  /** Charge 1000, use 500, charge 1500 for one user: the history lists
      exactly those three entries, in that order, and the balance is 2000. */
  method HistoryOfThreeCalls() returns (listed: seq<PointHistory>, balance: UserPoint)
    ensures listed == [PointHistory(100, 1000, CHARGE), PointHistory(100, 500, USE), PointHistory(100, 1500, CHARGE)]
    ensures balance == UserPoint(100, 2000)
  {
    var sut := new PointService(map[], []);
    assert sut.GetHistory(100) == [];
    WrapInRange(1000);
    var a := sut.Charge(100, 1000);
    assert a.point == 1000;
    WrapInRange(500);
    var b := sut.Use(100, 500);
    assert b.point == 500;
    WrapInRange(2000);
    var c := sut.Charge(100, 1500);
    assert c.point == 2000;
    listed := sut.GetHistory(100);
    balance := sut.GetPoint(100);
  }
}
