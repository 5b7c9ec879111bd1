/** The `__main__` block of `notarize.py`: assess the bundle; unless it is
    already notarized, submit it, poll until the service settles, staple
    the ticket and assess it again. The external tools are an oracle: the
    environment holds what each tool run would print, and the model records
    which commands the script runs, what it prints and how it ends. */
module Workflow {
  import opened Optional
  import opened Tools
  import opened UploadId
  import opened Status
  import opened Markers

  /** The parsed command line. */
  datatype Config = Config(
    appfile: string,
    username: string,
    password: string,
    bundleId: string,
    verifyOnly: bool,
    install: bool,
    uninstall: bool)

  /** What the outside world answers: whether the bundle path exists, and
      what each tool run would print. */
  datatype Environment = Environment(
    appfileExists: bool,
    firstCheck: VerifyOracle,
    upload: ToolOutput,
    polls: seq<ToolOutput>,
    staple: ToolOutput,
    finalCheck: VerifyOracle)

  /** The `RuntimeError`s the script raises. */
  datatype Failure =
    | FileMissing(path: string)   // "File ... does not exist"
    | NoUploadId                  // "Failed to retrieve upload id"
    | WaitFailed                  // "Something went wrong while waiting ..."
    | StapleFailed                // "Something went wrong while stapling"
    | VerificationFailed          // "Verification failed"

  /** How a run ends; `StillPolling` when the oracle's queries ran out while
      the service kept answering "not ready" (the script would poll on). */
  datatype Outcome = Completed | Aborted(failure: Failure) | StillPolling

  const NotarizedMessage := "Application notarized without errors"
  const VerifiedMessage := "Application verified and properly notarized"

  /** Python's truth value of an `int`. */
  predicate Truthy(n: int) {
    n != 0
  }

  /** Python's truth value of the upload id: `None` and `""` are false. */
  predicate UsableId(id: Option<string>) {
    id.Some? && id.value != ""
  }

  /** `do_upload` searches stdout and stderr glued with nothing between. */
  function UploadText(o: ToolOutput): string {
    o.stdout + o.stderr
  }

  /** The run goes as far as submitting the bundle. */
  predicate Submits(cfg: Config, env: Environment) {
    !cfg.install && !cfg.uninstall && env.appfileExists
    && !DoVerify(cfg.appfile, env.firstCheck).notarized && !cfg.verifyOnly
  }

  /** The run goes on after the submission, with the id it extracted. */
  predicate Polls(cfg: Config, env: Environment) {
    Submits(cfg, env) && UsableId(UploadIdOf(UploadText(env.upload)))
  }

  predicate IsToolCheck(a: Action) {
    a.Assess? || a.ValidateTicket?
  }

  method Run(cfg: Config, env: Environment)
    returns (calls: seq<Action>, printed: seq<string>, outcome: Outcome)
    // Install and uninstall only manage the wrapper script.
    ensures cfg.install || cfg.uninstall ==>
              calls == [ManageWrapper(cfg.install)] && printed == [] && outcome == Completed
    // A missing bundle aborts before any tool runs.
    ensures !cfg.install && !cfg.uninstall && !env.appfileExists ==>
              calls == [] && printed == [] && outcome == Aborted(FileMissing(cfg.appfile))
    // An already notarized bundle: the first assessment is all that runs.
    ensures !cfg.install && !cfg.uninstall && env.appfileExists
            && DoVerify(cfg.appfile, env.firstCheck).notarized ==>
              calls == DoVerify(cfg.appfile, env.firstCheck).calls
              && printed == [VerifiedMessage] && outcome == Completed
    // Verify-only mode never submits, polls or staples.
    ensures cfg.verifyOnly ==> forall a :: a in calls ==> IsToolCheck(a) || a.ManageWrapper?
    // No usable upload id (None or ""): abort right after the submission.
    ensures Submits(cfg, env) && !UsableId(UploadIdOf(UploadText(env.upload))) ==>
              calls == DoVerify(cfg.appfile, env.firstCheck).calls
                       + [Submit(cfg.appfile, cfg.username, cfg.password, cfg.bundleId)]
              && printed == [] && outcome == Aborted(NoUploadId)
    // Every status query asks about the extracted id.
    ensures forall a :: a in calls && a.QueryStatus? ==>
              Polls(cfg, env)
              && a == QueryStatus(UploadIdOf(UploadText(env.upload)).value, cfg.username, cfg.password)
    // The guard after `do_wait` never fires: an error answer goes on to stapling.
    ensures outcome != Aborted(WaitFailed)
    ensures Polls(cfg, env) && Settle(Answers(env.polls)).Some? ==> StapleTicket(cfg.appfile) in calls
    // The whole command trace of a run that polls.
    ensures Polls(cfg, env) ==>
              calls == DoVerify(cfg.appfile, env.firstCheck).calls
                       + [Submit(cfg.appfile, cfg.username, cfg.password, cfg.bundleId)]
                       + PollCalls(QueryStatus(UploadIdOf(UploadText(env.upload)).value, cfg.username, cfg.password), Answers(env.polls))
                       + (if Settle(Answers(env.polls)).None? then []
                          else [StapleTicket(cfg.appfile)]
                               + (if Stapled(env.staple) then DoVerify(cfg.appfile, env.finalCheck).calls else []))
    ensures Polls(cfg, env) && Settle(Answers(env.polls)).None? ==> outcome == StillPolling
    ensures Polls(cfg, env) && Settle(Answers(env.polls)).Some? ==>
              outcome == (if !Stapled(env.staple) then Aborted(StapleFailed)
                          else if !DoVerify(cfg.appfile, env.finalCheck).notarized then Aborted(VerificationFailed)
                          else Completed)
    // Without submitting, a bundle that is not notarized gets one more assessment.
    ensures !cfg.install && !cfg.uninstall && env.appfileExists
            && !DoVerify(cfg.appfile, env.firstCheck).notarized && cfg.verifyOnly ==>
              calls == DoVerify(cfg.appfile, env.firstCheck).calls + DoVerify(cfg.appfile, env.finalCheck).calls
              && outcome == (if DoVerify(cfg.appfile, env.finalCheck).notarized then Completed
                             else Aborted(VerificationFailed))
    // What is printed: the success lines, in order, only on success.
    ensures outcome == Completed && !cfg.install && !cfg.uninstall ==>
              printed == (if Polls(cfg, env) then [NotarizedMessage] else []) + [VerifiedMessage]
    // A run that does not complete prints nothing, except when the final
    // assessment fails after stapling: the "notarized" line is already out.
    ensures outcome != Completed ==>
              printed == (if Polls(cfg, env) && outcome == Aborted(VerificationFailed)
                          then [NotarizedMessage] else [])
  {
    calls, printed := [], [];
    if cfg.install || cfg.uninstall {
      calls := [ManageWrapper(cfg.install)];
      outcome := Completed;
      return;
    }
    if !env.appfileExists {
      outcome := Aborted(FileMissing(cfg.appfile));
      return;
    }
    var first := DoVerify(cfg.appfile, env.firstCheck);
    calls := first.calls;
    if !first.notarized {
      if !cfg.verifyOnly {
        calls := calls + [Submit(cfg.appfile, cfg.username, cfg.password, cfg.bundleId)];
        var uploadId := ExtractUploadId(env.upload.stdout + env.upload.stderr);
        if uploadId.None? || uploadId.value == "" {
          outcome := Aborted(NoUploadId);
          return;
        }
        var isOk, waitCalls := Wait(uploadId.value, cfg.username, cfg.password, env.polls);
        calls := calls + waitCalls;
        if isOk.None? {
          outcome := StillPolling;
          return;
        }
        // `do_wait` answers 1 or -1, both true in Python: this never aborts.
        if !Truthy(isOk.value) {
          outcome := Aborted(WaitFailed);
          return;
        }
        calls := calls + [StapleTicket(cfg.appfile)];
        if !Stapled(env.staple) {
          outcome := Aborted(StapleFailed);
          return;
        }
        printed := printed + [NotarizedMessage];
      }
      var final := DoVerify(cfg.appfile, env.finalCheck);
      calls := calls + final.calls;
      if !final.notarized {
        outcome := Aborted(VerificationFailed);
        return;
      }
    }
    printed := printed + [VerifiedMessage];
    outcome := Completed;
  }
}
