/** The submission record as decoded from the POST body, and the check
    (`checkData`) that decides whether it is stored and counted. */
module Validation {
  import opened Wrappers

  /** Number of readings every sensor point must carry
      (audio, pressure, temperature, humidity, light). */
  const SensorValues: nat := 5

  /** One sensor point. Only the number of readings matters to validation,
      so the float readings are kept by their count. */
  datatype Sensor = Sensor(datetime: string, dataLength: nat)

  /** The fields of a submission that the server inspects. `sensorLog` is
      `None` when the JSON body had no (or a null) "SensorLog", which Go
      tells apart from an empty list. */
  datatype Data = Data(beaconAddress: string, sessionNumber: int, datetime: string,
                       sensorLog: Option<seq<Sensor>>)

  predicate ValidPoint(point: Sensor) {
    point.datetime != "" && point.dataLength == SensorValues
  }

  /** What makes a submission acceptable: both top-level strings set, a
      sensor log present (possibly empty), and every point dated and
      holding exactly five readings. */
  predicate WellFormed(d: Data) {
    && d.datetime != ""
    && d.beaconAddress != ""
    && d.sensorLog.Some?
    && forall i :: 0 <= i < |d.sensorLog.value| ==> ValidPoint(d.sensorLog.value[i])
  }

  /** `checkData`: rejects on an empty top-level field or a missing log,
      then scans the log and rejects at the first bad point. */
  method CheckData(d: Data) returns (ok: bool)
    ensures ok <==> WellFormed(d)
  {
    if d.datetime == "" || d.beaconAddress == "" || d.sensorLog.None? {
      return false;
    }
    var log := d.sensorLog.value;
    var i := 0;
    while i < |log|
      invariant 0 <= i <= |log|
      invariant forall j :: 0 <= j < i ==> ValidPoint(log[j])
    {
      if log[i].datetime == "" || log[i].dataLength != SensorValues {
        return false;
      }
      i := i + 1;
    }
    return true;
  }
}
