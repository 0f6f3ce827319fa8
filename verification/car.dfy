/**
 The car facade (class Car). A car is given an engine and a database context
 whose EcuData table holds the ECU's sensor readings. It starts the engine,
 turning the engine's two ways of failing into one CarStartException;
 reports whether the engine runs; returns the readings since a given time,
 refusing times before the car was manufactured; and estimates the range
 left from the fuel and the average consumption.
 */
module Car {
  import opened Clock
  import opened Exceptions
  import opened Engine
  import opened Telemetry
  import opened Queries
  import opened Int32

  /** A car: the state of the engine it was given and the readings its database holds. */
  datatype Car = Car(engine: EngineState, ecuData: seq<EcuData>)

  /** 2018-01-01 00:00:00, the day the car was made. */
  const ManufactureDay: Calendar := Calendar(2018, 1, 1, 0, 0, 0)

  /** No reading of this car can be older than its manufacture date. */
  const ManufactureDate: DateTime := Make(ManufactureDay)

  /** As a .NET tick count, 2018-01-01 00:00:00 is 636503616000000000 (day 736694 since 0001-01-01). */
  lemma ManufactureDateTicks()
    ensures DayNumber(ManufactureDay) == 736_694
    ensures ManufactureDate == 636_503_616_000_000_000
  {
  }

  /** The IsRunning property: a read of the engine's flag. */
  function IsRunning(car: Car): bool {
    car.engine.isRunning
  }

  /** What Start does to the car: how the call completed, and the car afterwards. */
  datatype Started = Started(result: Result<bool>, car: Car)

  /**
   Start calls the engine's Start once. When it returns true, the car sets the
   engine's IsRunning flag and returns the flag it reads back. When it returns
   false, the car throws a CarStartException of its own. When it throws an
   EngineStartException, the car wraps it as the cause of a CarStartException.
   Any other exception passes through unchanged, since the car catches only
   EngineStartException. On every failure the car leaves the engine as the
   engine's Start left it.
   */
  function Start(car: Car, engineStart: StartBehaviour): (r: Started)
    ensures r.car.ecuData == car.ecuData
    ensures engineStart(car.engine).result == Return(true) ==>
              r.result == Return(true) && r.car.engine == engineStart(car.engine).after.(isRunning := true)
    ensures engineStart(car.engine).result == Return(false) ==>
              r.result == Throw(Exception(CarStartException, "Something went wrong", None))
    ensures engineStart(car.engine).result.Throw? ==>
              var e := engineStart(car.engine).result.exception;
              if e.exceptionType == EngineStartException
              then r.result == Throw(Exception(CarStartException, "Handled EngineStartException", Some(e)))
              else r.result == Throw(e)
    ensures engineStart(car.engine).result != Return(true) ==> r.car.engine == engineStart(car.engine).after
  {
    var step := engineStart(car.engine);
    match step.result
    case Return(started) =>
      if started then
        var engine := step.after.(isRunning := true);
        Started(Return(engine.isRunning), car.(engine := engine))
      else
        Started(Throw(Exception(CarStartException, "Something went wrong", None)), car.(engine := step.after))
    case Throw(e) =>
      if e.exceptionType == EngineStartException then
        Started(Throw(Exception(CarStartException, "Handled EngineStartException", Some(e))), car.(engine := step.after))
      else
        Started(Throw(e), car.(engine := step.after))
  }

  /**
   After Start the car reports running exactly when the engine's Start returned
   true, or when the engine's flag is set after its failed Start, whether the
   engine set it or it was already set.
   */
  lemma IsRunningAfterStart(car: Car, engineStart: StartBehaviour)
    ensures IsRunning(Start(car, engineStart).car)
            <==> engineStart(car.engine).result == Return(true) || engineStart(car.engine).after.isRunning
  {
  }

  /** Start succeeds exactly when the engine's Start returns true, and then the car reports that it runs. */
  lemma StartThenIsRunning(car: Car, engineStart: StartBehaviour)
    ensures Start(car, engineStart).result.Return? <==> engineStart(car.engine).result == Return(true)
    ensures Start(car, engineStart).result.Return? ==>
              Start(car, engineStart).result.value && IsRunning(Start(car, engineStart).car)
  {
  }

  /**
   The car's callers see one failure type for a failed start: every exception
   Start throws is a CarStartException, unless the engine threw some other type
   than EngineStartException, which passes through. An EngineStartException
   never escapes, and it is always kept as the cause.
   */
  lemma StartFailureTaxonomy(car: Car, engineStart: StartBehaviour)
    ensures var r := Start(car, engineStart);
            r.result.Throw? ==>
              && r.result.exception.exceptionType != EngineStartException
              && (r.result.exception.exceptionType == CarStartException
                  || r.result == engineStart(car.engine).result)
    ensures var r := Start(car, engineStart);
            var step := engineStart(car.engine);
            step.result.Throw? && step.result.exception.exceptionType == EngineStartException ==>
              r.result.Throw? && r.result.exception.innerException == Some(step.result.exception)
  {
  }

  /** When the engine's Start leaves its flag alone and the start fails, the car is exactly as before. */
  lemma FailedStartChangesNothing(car: Car, engineStart: StartBehaviour)
    requires engineStart(car.engine).after == car.engine
    ensures Start(car, engineStart).result.Throw? ==> Start(car, engineStart).car == car
    ensures Start(car, engineStart).result.Throw? ==> IsRunning(Start(car, engineStart).car) == IsRunning(car)
  {
  }

  /** The fixed parts of the EcuDataException text, around the two rendered times. */
  const Opening: string := "The sinceTime '"
  const Middle: string := "' provided is earlier than the ManufactureDate '"
  const Closing: string := "' for the car."

  /**
   The text of the EcuDataException, given how the runtime renders a DateTime:
   the rendered sinceTime and the rendered manufacture date, each quoted, in
   their places in the fixed sentence.
   */
  function TooEarlyMessage(sinceTime: DateTime, render: DateTime -> string): (r: string)
    ensures var since, made := render(sinceTime), render(ManufactureDate);
            var i, j := |Opening| + |since|, |Opening| + |since| + |Middle| + |made|;
            && |r| == j + |Closing|
            && r[..|Opening|] == Opening
            && r[|Opening|..i] == since
            && r[i..i + |Middle|] == Middle
            && r[i + |Middle|..j] == made
            && r[j..] == Closing
  {
    var since, made := render(sinceTime), render(ManufactureDate);
    Splice(Opening, since, Middle, made, Closing);
    Opening + since + Middle + made + Closing
  }

  /** Where each of five joined strings sits in the result. */
  lemma Splice(a: string, b: string, c: string, d: string, e: string)
    ensures var r, i, j := a + b + c + d + e, |a| + |b|, |a| + |b| + |c| + |d|;
            && |r| == j + |e|
            && r[..|a|] == a && r[|a|..i] == b && r[i..i + |c|] == c && r[i + |c|..j] == d && r[j..] == e
  {
  }

  /**
   GetSensorData refuses a sinceTime earlier than the manufacture date with an
   EcuDataException and does not look at the readings. Otherwise it returns
   the readings stamped at or after sinceTime (the bound is inclusive), sorted
   by timestamp, keeping the stored order among readings with equal
   timestamps, and nothing else.
   */
  function GetSensorData(car: Car, sinceTime: DateTime, render: DateTime -> string): (r: Result<seq<EcuData>>)
    ensures r.Throw? <==> sinceTime < ManufactureDate
    ensures r.Throw? ==>
              && r.exception.exceptionType == EcuDataException
              && "The sinceTime" <= r.exception.message
              && r.exception.message == TooEarlyMessage(sinceTime, render)
              && r.exception.innerException == None
    ensures r.Return? ==> Sorted(r.value)
    ensures r.Return? ==> forall t: DateTime :: At(r.value, t) == if sinceTime <= t then At(car.ecuData, t) else []
    ensures r.Return? ==> forall x :: x in r.value <==> x in car.ecuData && sinceTime <= x.timestamp
    ensures r.Return? ==>
              forall x :: multiset(r.value)[x] == if sinceTime <= x.timestamp then multiset(car.ecuData)[x] else 0
  {
    if sinceTime < ManufactureDate then
      Throw(Exception(EcuDataException, TooEarlyMessage(sinceTime, render), None))
    else
      SinceContents(car.ecuData, sinceTime);
      Return(OrderBy(Since(car.ecuData, sinceTime)))
  }

  /**
   The contract of GetSensorData determines its result: a sorted sequence
   that holds, for each timestamp from sinceTime on, the stored readings with
   that timestamp in stored order, and nothing else, is the result.
   */
  lemma GetSensorDataDetermined(car: Car, sinceTime: DateTime, render: DateTime -> string, readings: seq<EcuData>)
    requires ManufactureDate <= sinceTime
    requires Sorted(readings)
    requires forall t: DateTime :: At(readings, t) == if sinceTime <= t then At(car.ecuData, t) else []
    ensures GetSensorData(car, sinceTime, render) == Return(readings)
  {
    var r := GetSensorData(car, sinceTime, render).value;
    StableSortUnique(r, readings);
  }

  /** In calendar terms: GetSensorData refuses exactly the times in 2017 and earlier. */
  lemma GetSensorDataRefusesBefore2018(car: Car, c: Calendar, render: DateTime -> string)
    requires Valid(c)
    ensures GetSensorData(car, Make(c), render).Throw? <==> c.year < 2018
  {
    CalendarOrder(c, ManufactureDay);
  }

  /** The estimated range, gallons times average miles per gallon, as an unchecked C# `int` product. */
  function CalculateCurrentRange(gallons: int32, avgMpg: int32): (r: int32)
    ensures Min <= gallons * avgMpg <= Max ==> r == gallons * avgMpg
    ensures (gallons * avgMpg - r) % Modulus == 0
  {
    Wrap(gallons * avgMpg)
  }
}
