/**
 The car's documented examples, stated about the model: the engine outcomes,
 the manufacture-date boundary, the eight-reading telemetry fixture taken one
 minute apart from 2018-01-01 06:00 to 06:07, and the range vectors.
 */
module CarScenarios {
  import opened Clock
  import opened Exceptions
  import opened Engine
  import opened Telemetry
  import opened Queries
  import opened Int32
  import opened Car

  /** Engines that answer Start with `result` and leave their flag alone. */
  function Answering(result: Result<bool>): StartBehaviour {
    (e: EngineState) => StartStep(result, e)
  }

  lemma EngineOutcomes(car: Car)
    ensures var r := Start(car, Answering(Return(true)));
            r.result == Return(true) && IsRunning(r.car)
    ensures var r := Start(car, Answering(Return(false)));
            r.result.exception.exceptionType == CarStartException && r.result.exception.message == "Something went wrong"
    ensures var thrown := Exception(EngineStartException, "", None);
            var r := Start(car, Answering(Throw(thrown)));
            && r.result.exception.exceptionType == CarStartException
            && r.result.exception.message == "Handled EngineStartException"
            && r.result.exception.innerException == Some(thrown)
  {
  }

  /** 2017-12-31 is refused with a message that starts "The sinceTime"; 2018-01-01 and 2018-12-31 are accepted. */
  lemma ManufactureDateBoundary(car: Car, render: DateTime -> string)
    ensures Valid(Calendar(2017, 12, 31, 0, 0, 0)) && Valid(Calendar(2018, 12, 31, 0, 0, 0))
    ensures var r := GetSensorData(car, Make(Calendar(2017, 12, 31, 0, 0, 0)), render);
            r.Throw? && r.exception.exceptionType == EcuDataException && "The sinceTime" <= r.exception.message
    ensures GetSensorData(car, ManufactureDate, render).Return?
    ensures GetSensorData(car, Make(Calendar(2018, 12, 31, 0, 0, 0)), render).Return?
  {
    var before, after := Calendar(2017, 12, 31, 0, 0, 0), Calendar(2018, 12, 31, 0, 0, 0);
    assert Valid(before) && Valid(after);
    GetSensorDataRefusesBefore2018(car, before, render);
    GetSensorDataRefusesBefore2018(car, after, render);
  }

  /** 2018-01-01 06:mm:00: six hours and `minute` minutes after the manufacture date. */
  function SixOClock(minute: int): DateTime
    requires 0 <= minute < 60
  {
    ManufactureDate + 6 * 36_000_000_000 + minute * 600_000_000
  }

  /** `SixOClock` is the DateTime the fixture constructs for 06:mm on 2018-01-01. */
  lemma SixOClockIsConstructed(minute: int)
    requires 0 <= minute < 60
    ensures Valid(Calendar(2018, 1, 1, 6, minute, 0))
    ensures SixOClock(minute) == Make(Calendar(2018, 1, 1, 6, minute, 0))
  {
    var c := Calendar(2018, 1, 1, 6, minute, 0);
    assert DayNumber(c) == DayNumber(ManufactureDay);
  }

  /** The fixture's times are in the order of their minutes, and none predates the car. */
  lemma SixOClockOrder()
    ensures forall m1, m2 :: 0 <= m1 < 60 && 0 <= m2 < 60 ==> (SixOClock(m1) < SixOClock(m2) <==> m1 < m2)
    ensures forall m :: 0 <= m < 60 ==> ManufactureDate <= SixOClock(m)
  {
  }

  function Reading(id: int, afr: int, kpa: int, minute: int): EcuData
    requires 0 <= minute < 60
  {
    EcuData(id, Decimal(afr, 1), Decimal(kpa, 1), SixOClock(minute))
  }

  const Fixture: seq<EcuData> := [
    Reading(1, 145, 101, 0),
    Reading(2, 146, 201, 1),
    Reading(3, 148, 301, 2),
    Reading(4, 147, 401, 3),
    Reading(5, 147, 501, 4),
    Reading(6, 146, 401, 5),
    Reading(7, 148, 501, 6),
    Reading(8, 143, 101, 7)
  ]

  lemma FixtureShape()
    ensures |Fixture| == 8
    ensures forall i :: 0 <= i < 8 ==> Fixture[i].id == i + 1 && Fixture[i].timestamp == SixOClock(i)
  {
  }

  /** The fixture is stored in time order, and 06:mm splits it at position mm. */
  lemma FixtureSplits(minute: int)
    requires 0 <= minute < 8
    ensures Sorted(Fixture)
    ensures forall i :: 0 <= i < minute ==> Fixture[i].timestamp < SixOClock(minute)
    ensures forall i :: minute <= i < |Fixture| ==> SixOClock(minute) <= Fixture[i].timestamp
  {
    FixtureShape();
    SixOClockOrder();
  }

  /** Since 06:mm the car returns the fixture's readings from the one taken at 06:mm on, in order. */
  lemma FixtureSince(engine: EngineState, render: DateTime -> string, minute: int)
    requires 0 <= minute < 8
    ensures GetSensorData(Car(engine, Fixture), SixOClock(minute), render) == Return(Fixture[minute..])
  {
    FixtureSplits(minute);
    SixOClockOrder();
    SinceSuffix(Fixture, SixOClock(minute), minute);
    var tail := Fixture[minute..];
    assert Sorted(tail) by {
      forall i, j | 0 <= i < j < |tail|
        ensures tail[i].timestamp <= tail[j].timestamp
      {
        assert tail[i] == Fixture[minute + i] && tail[j] == Fixture[minute + j];
      }
    }
    OrderBySorted(tail);
  }

  /** Since 06:05, 06:04, 06:03 and 06:01 the car returns 3, 4, 5 and 7 readings; since 06:05 they are readings 6, 7 and 8. */
  lemma FixtureCounts(engine: EngineState, render: DateTime -> string)
    ensures var r := GetSensorData(Car(engine, Fixture), SixOClock(5), render);
            r.Return? && |r.value| == 3 && r.value[0].id == 6 && r.value[1].id == 7 && r.value[2].id == 8
    ensures GetSensorData(Car(engine, Fixture), SixOClock(4), render).value == Fixture[4..]
    ensures |GetSensorData(Car(engine, Fixture), SixOClock(4), render).value| == 4
    ensures |GetSensorData(Car(engine, Fixture), SixOClock(3), render).value| == 5
    ensures |GetSensorData(Car(engine, Fixture), SixOClock(1), render).value| == 7
  {
    FixtureShape();
    FixtureSince(engine, render, 5);
    FixtureSince(engine, render, 4);
    FixtureSince(engine, render, 3);
    FixtureSince(engine, render, 1);
  }

  /** The range vectors 10 x 28 = 280, 12 x 30 = 360 and 8 x 25 = 200. */
  lemma RangeVectors()
    ensures CalculateCurrentRange(10, 28) == 280
    ensures CalculateCurrentRange(12, 30) == 360
    ensures CalculateCurrentRange(8, 25) == 200
  {
  }

  /** A product past 2^31 - 1 wraps: 65536 x 32768 gives -2^31, and 50000 x 50000 gives a negative range. */
  lemma RangeOverflowWraps()
    ensures CalculateCurrentRange(65536, 32768) == -0x8000_0000
    ensures CalculateCurrentRange(50000, 50000) == -1_794_967_296
  {
  }
}
