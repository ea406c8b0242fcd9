/** The unit of work handed to the job manager and the status records the
    manager keeps for it in the registry. */
module Status {

  /** A print job as the manager sees it: the caller-assigned reference id and
      the id of the application (print template set) that owns it. */
  datatype PrintJob = PrintJob(referenceId: string, appId: string)

  /** The status record stored in the registry under a job's reference id.
      `Pending` is written at submission; a finished job reports one of the
      other two. */
  datatype StatusRecord =
    | Pending(referenceId: string, appId: string)
    | Successful(referenceId: string, appId: string, reportUri: string)
    | Failed(referenceId: string, appId: string, error: string)
  {
    /** A record that answers "is the job done?" with yes. */
    predicate IsFinal() {
      !Pending?
    }
  }
}
