# Car facade of the UnitTesting repository, in Dafny

This project models the `Car` class of the ClassLibrary project. A car is
given an engine (`IEngine`) and a database context whose `EcuData` table holds
the engine-control unit's sensor readings. The car offers four things:

- `Start` starts the engine. A `false` answer from the engine and an
  `EngineStartException` both become a `CarStartException`. In the second case
  the engine's exception is kept as the inner exception.
- `IsRunning` reports the engine's running flag.
- `GetSensorData(sinceTime)` refuses a time before the manufacture date
  (2018-01-01) with an `EcuDataException`. Otherwise it returns the stored
  readings stamped at or after `sinceTime`, ordered by timestamp.
- `CalculateCurrentRange` multiplies gallons by average miles per gallon, as a
  C# `int` product.

Modules, leaves first:

- `Clock`: `System.DateTime` as a tick count, the calendar constructor
  `DateTime(y, m, d, h, mi, s)` (`Make`), and the order on constructed values.
- `Exceptions`: exceptions as values with a type, a message and an inner
  exception. `Result` is "returned a value or threw".
- `Engine`: the engine's observable state, and its `Start` as a function from
  state to outcome plus new state.
- `Telemetry`: the `EcuData` entity.
- `Queries`: the LINQ `Where(e => e.Timestamp >= sinceTime)` filter
  (`Since`) and the `OrderBy(e => e.Timestamp)` stable sort (`OrderBy`).
- `Int32`: C#'s unchecked 32-bit `int`.
- `Car`: the facade.
- `CarScenarios`: the examples the repository's tests exercise, stated about
  the model.

The engine is a parameter of `Start` because it is an external
implementation. It may answer `true` or `false`, throw any exception, and
change its own running flag while doing so. The car catches only
`EngineStartException`, so any other exception passes through unchanged.

How a DateTime is rendered in the `EcuDataException` message depends on the
runtime's culture, so `GetSensorData` takes the renderer as a parameter. The
rest of the message is modelled exactly.

Two details of the code decide the model:

- The message passes the .NET format `"yyyy-mm-dd HH:mi"` (ClassLibrary/Car.cs:48).
  In it `mm` renders minutes where a month would go, and `i` is copied
  literally. The renderer is therefore left abstract.
- `catch (EngineStartException)` (ClassLibrary/Car.cs:35) is the only handler
  in `Start`. An engine exception of any other type escapes `Start`
  unchanged, and `Car.Start` states so.

## Model

| member | source | states |
|---|---|---|
| `Car.ManufactureDateTicks` | ClassLibrary/Car.cs:14 | The manufacture date `new DateTime(2018, 1, 1)` is day 736694 since 0001-01-01, which is tick count 636503616000000000. |
| `Car.Start` | ClassLibrary/Car.cs:22-42 | Start never touches the readings. The engine answers `true`: Start returns `true` and the engine's flag is set. It answers `false`: Start throws CarStartException "Something went wrong" with no inner exception. It throws EngineStartException: Start throws CarStartException "Handled EngineStartException" wrapping it. It throws another type: that exception escapes unchanged. On every failure the engine stays as the engine left it. |
| `Car.IsRunningAfterStart` | ClassLibrary/Car.cs:59 | `IsRunning` reads the engine's flag. After Start it holds exactly when the engine's Start returned `true`, or when the engine's flag is set after its failed Start, whether the engine set it or it was already set. |
| `Car.StartThenIsRunning` | ClassLibrary/Car.cs:26-41 | Start returns a value exactly when the engine's Start returns `true`, and then the value is `true` and `IsRunning` holds afterwards. |
| `Car.StartFailureTaxonomy` | ClassLibrary/Car.cs:30-39 | An EngineStartException never escapes Start. Every exception thrown is either a CarStartException or the engine's own exception of another type. An EngineStartException from the engine is always the inner exception of what Start throws. |
| `Car.FailedStartChangesNothing` | ClassLibrary/Car.cs:30-39 | With an engine that leaves its own state alone, a failed Start leaves the car, and hence `IsRunning`, exactly as before. |
| `Car.GetSensorData` | ClassLibrary/Car.cs:44-52 | It throws exactly when `sinceTime` precedes the manufacture date. The exception is an EcuDataException with no inner exception, and its message starts "The sinceTime" and embeds both rendered times. Otherwise the result is sorted by timestamp and holds, for each timestamp at or after `sinceTime`, that timestamp's stored readings in stored order, and nothing else. Multiplicities are kept. |
| `Car.TooEarlyMessage` | ClassLibrary/Car.cs:48 | The text equals the interpolated string: "The sinceTime '", the rendered sinceTime, "' provided is earlier than the ManufactureDate '", the rendered manufacture date, and "' for the car.". Each part sits at its computed position, up to the `render` parameter. |
| `Car.GetSensorDataDetermined` | ClassLibrary/Car.cs:51 | The contract of GetSensorData fixes its result. Any sorted sequence holding each timestamp's stored readings in stored order, from `sinceTime` on, is exactly what GetSensorData returns. |
| `Car.GetSensorDataRefusesBefore2018` | ClassLibrary/Car.cs:46-48 | For a time built with the DateTime constructor, GetSensorData refuses it exactly when its year is 2017 or earlier. |
| `Car.CalculateCurrentRange` | ClassLibrary/Car.cs:54-57 | The range is `gallons * avgMpg` whenever that fits in an `int`. It is always congruent to that product modulo 2^32, which is C#'s unchecked wrap-around. |
| `Int32.Wrap` | ClassLibrary/Car.cs:56 | The two's-complement reduction is an `int` value congruent to its argument modulo 2^32, and it is the argument itself when the argument fits. |
| `Int32.WrapUnique` | ClassLibrary/Car.cs:56 | Only one `int` value is congruent to a given integer modulo 2^32, so the wrapped product is fully determined by the contract of `Wrap`. |
| `Queries.Since` | ClassLibrary/Car.cs:51 | The `Where` filter keeps, for each timestamp at or after the bound, every stored reading with that timestamp in stored order. For earlier timestamps it keeps none. |
| `Queries.SinceSingle` | ClassLibrary/Car.cs:51 | On a single reading the `Where` filter keeps it exactly when its timestamp is at or after the bound. |
| `Queries.SinceConcat` | ClassLibrary/Car.cs:51 | The filter of a concatenation is the concatenation of the filters. With `Queries.SinceSingle` this fixes the result completely: the kept readings stay in store order, across timestamps as well as within one. |
| `Queries.SinceContents` | ClassLibrary/Car.cs:51 | The filter keeps each reading stamped at or after the bound as many times as the store holds it, and no other reading. |
| `Queries.SinceSuffix` | ClassLibrary/Car.cs:51 | When the readings before position k are all earlier than the bound and the rest are not, the filter returns exactly the suffix from k. |
| `Queries.Insert` | ClassLibrary/Car.cs:51 | Inserting a reading into a sorted sequence, after every reading not later than it, keeps the sequence sorted. It adds exactly that reading, and it places it last among the readings with its timestamp. |
| `Queries.OrderBy` | ClassLibrary/Car.cs:51 | `OrderBy` by timestamp returns a sorted permutation of its input that keeps the stored order among readings with equal timestamps (a stable sort). |
| `Queries.StableSortUnique` | ClassLibrary/Car.cs:51 | Two sorted sequences with the same readings in the same order at every timestamp are equal. Every stable sort by timestamp therefore returns what `OrderBy` returns. |
| `Queries.OrderBySorted` | ClassLibrary/Car.cs:51 | `OrderBy` returns a sequence already in time order unchanged. |
| `Clock.MakeIsDateAndTime` | ClassLibrary/Car.cs:14 | `Make`, the DateTime(year, month, day, hour, minute, second) constructor, is .NET's DateToTicks plus TimeToTicks: the day number times the ticks per day, plus the second of the day times the ticks per second. The time part stays below one day. |
| `Clock.MakeSplits` | ClassLibrary/Car.cs:14 | The tick count the DateTime constructor produces splits back into its day number and its second of the day, and it is a whole number of seconds. |
| `Clock.CalendarOrder` | ClassLibrary/Car.cs:46 | Comparing two constructed DateTime values with `<` compares their constructor arguments lexicographically. Two valid argument lists give the same instant only when they are equal. |
| `CarScenarios.EngineOutcomes` | ClassLibraryTests/CarTests.cs:35-104 | An engine answering `true` gives `true` and a running car. One answering `false` gives a CarStartException "Something went wrong". One throwing EngineStartException gives a CarStartException "Handled EngineStartException" that wraps it. |
| `CarScenarios.ManufactureDateBoundary` | ClassLibraryTests/CarTests.cs:125-165 | 2017-12-31 is refused with an EcuDataException whose message starts "The sinceTime". 2018-01-01 and 2018-12-31 are accepted. |
| `CarScenarios.SixOClockIsConstructed` | ClassLibraryTests/CarTests.cs:260-267 | The fixture's timestamps `new DateTime(2018, 1, 1, 6, mm, 0)` are six hours and mm minutes after the manufacture date. |
| `CarScenarios.FixtureSince` | ClassLibraryTests/CarTests.cs:255-268 | Over the eight-reading fixture, GetSensorData since 06:mm returns the fixture from its mm-th reading on, in stored order. |
| `CarScenarios.FixtureCounts` | ClassLibraryTests/CarTests.cs:107-193 | Since 06:05, 06:04, 06:03 and 06:01 the car returns 3, 4, 5 and 7 readings. Since 06:05 they are the readings with ids 6, 7 and 8. |
| `CarScenarios.RangeVectors` | ClassLibraryTests/CarTests.cs:195-237 | 10 × 28 = 280, 12 × 30 = 360 and 8 × 25 = 200. |
| `CarScenarios.RangeOverflowWraps` | ClassLibrary/Car.cs:56 | A product past 2^31 − 1 wraps around. 65536 × 32768 gives −2^31, and 50000 × 50000 gives −1794967296. |

## Left out

- The database and Entity Framework: the `EcuData` table is a sequence of readings in stored order. Connections, schema and query translation are not modelled.
- `OrderBy` is modelled as LINQ-to-Objects' stable sort, which is what the in-memory test doubles run. A SQL provider need not keep any order among equal timestamps. `Queries.StableSortUnique` shows that any stable sort gives the same result.
- `async`/`await` and `ToListAsync`: GetSensorData is modelled as a synchronous function.
- DateTime rendering with the culture-dependent format `"yyyy-mm-dd HH:mi"` is not modelled. It is the `render` parameter of `Car.GetSensorData`, so the message is stated only up to how the two times are rendered.
- DateTime is modelled only as far as the car uses it: tick counts, the year-to-second constructor, and comparison. Kind, time zones and fractions of a second are not modelled.
- `IEngine.Shutdown`: the car never calls it.
- Car.Start: the engine's IsRunning property reads back the last value written to it, and its setter cannot throw. So `return _engine.IsRunning` (ClassLibrary/Car.cs:41) is modelled as returning `true`, and `Start` never returns `false`. An engine whose getter answers otherwise, or whose setter throws inside the `try`, is not modelled.
- The engine's implementation is a parameter of `Car.Start`. Engine-side logging and side effects other than its running flag are not modelled.
- The exception classes' constructors (ClassLibrary/CarStartException.cs, ClassLibrary/EcuDataException.cs) are not modelled one by one. An exception is its type, message and inner exception. The definition of EngineStartException is not part of this model; it is matched by type only, and subclasses of it are not distinguished.
- The `decimal` payload fields `Afr` and `ManifoldPressureKpa` are carried unchanged as scaled integers. Nothing in the car computes with them.
- The JSON-driven range test cases (ClassLibraryTests/RangeDataSource.cs) read a resource file that is not part of this model.
- The test framework (NUnit, NSubstitute, FluentAssertions, assembly initialisation) is not modelled.
