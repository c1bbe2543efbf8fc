/** The telemetry domain types (internal/domain/telemetry/telemetry.go). */
module Telemetry {
  import opened Flux

  /** `lastSeen` is an instant; 0 is the zero time. */
  datatype HealthData = HealthData(
    deviceSN: string, deviceName: string, gatewaySN: string, project: string, kind: string, model: string,
    status: string, uptime: Number, temp: Number, hum: Number, rssi: Number, resetReason: string, lastSeen: int)

  type TelemetryData = map<string, Value>

  datatype TelemetryRecord = TelemetryRecord(timestamp: Time, fields: map<string, Value>)

  datatype DeviceEntry = DeviceEntry(health: HealthData, telemetry: TelemetryData)

  function BlankHealth(sn: string): HealthData {
    HealthData(sn, "", "", "", "", "", "", ZERO, ZERO, ZERO, ZERO, "", 0)
  }
}
