/** The decision part of the `POST /results/:expName` handler, after the
    body has been decoded: pick the first unused version for the upload and
    forward the submission to the report loop only if it passes the check. */
module Intake {
  import opened Wrappers
  import Naming
  import Validation
  import Scheduler

  /** `existing` is the set of file names present on disk, `date` the
      upload date and `dir` the working directory. Returns the version the
      upload's files get and the event handed to the report loop, if any.
      The version is searched before validation, as in the handler. */
  method HandleResults(d: Validation.Data, experimentName: string, date: string, dir: string,
                       windows: bool, existing: set<string>)
    returns (version: nat, event: Option<Scheduler.Event>)
    ensures var p := Naming.NameParts(date, dir, experimentName, d.sessionNumber, windows);
      && Naming.VersionedName(p, version) !in existing
      && forall v :: 0 <= v < version ==> Naming.VersionedName(p, v) in existing
    ensures event.Some? <==> Validation.WellFormed(d)
    ensures event.Some? ==> event.value == Scheduler.Submission(d.beaconAddress)
  {
    var parts := Naming.NameParts(date, dir, experimentName, d.sessionNumber, windows);
    version := Naming.FindVersion(existing, parts);
    var ok := Validation.CheckData(d);
    if ok {
      event := Some(Scheduler.Submission(d.beaconAddress));
    } else {
      event := None;
    }
  }
}
