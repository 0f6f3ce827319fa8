/**
 The engine capability the car is given (the IEngine interface). The car can
 observe and write the engine's IsRunning property, and it can call Start.
 What Start does is up to the engine implementation: it returns true or
 false or throws, and it may change the engine's own state while doing so.
 */
module Engine {
  import opened Exceptions

  /** The observable state of an engine: its IsRunning property. */
  datatype EngineState = EngineState(isRunning: bool)

  /** One call of the engine's Start: how it completed and the state it left behind. */
  datatype StartStep = StartStep(result: Result<bool>, after: EngineState)

  /** An engine implementation, seen through its Start method. */
  type StartBehaviour = EngineState -> StartStep
}
