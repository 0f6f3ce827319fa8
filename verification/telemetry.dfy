/**
 The ECU telemetry entity: one stored sensor reading (the EcuData row). The
 two decimal measurements are carried unchanged; nothing in the car inspects
 or computes with them.
 */
module Telemetry {
  import opened Clock

  /** A .NET decimal as written, e.g. 14.5M is Decimal(145, 1); kept as opaque payload. */
  datatype Decimal = Decimal(unscaled: int, scale: nat)

  datatype EcuData = EcuData(id: int, afr: Decimal, manifoldPressureKpa: Decimal, timestamp: DateTime)
}
