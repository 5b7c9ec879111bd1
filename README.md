# macapp-notarize: a Dafny model of the notarization driver

`notarize.py` drives Apple's notarization workflow for a macOS bundle. It
assesses the bundle with `spctl`. If the bundle is not yet notarized, it
submits it with `xcrun altool --notarize-app` and reads an upload id from
the tool's text. It then polls `xcrun altool --notarization-info` until the
service settles, staples the ticket with `xcrun stapler staple` and
assesses the bundle again. Every decision the script takes comes from
argument tokens or from substring tests on the text the tools print.

This project models that decision logic in Dafny:

- `args.dfy` (module `Args`): the token scan of `parse_args`. It decides
  whether `-u/-p/-b` are required and whether the `appfile` positional is
  declared.
- `upload_id.dfy` (module `UploadId`): `extract_upload_id`. This covers the
  two needles tried in order, Python's `split`, `strip` and the first part
  of `re.split('[^0-9a-zA-Z-].', ...)`.
- `status.dfy` (module `Status`): the line scan of `check_is_ready` and the
  polling loop of `do_wait`.
- `markers.dfy` (module `Markers`): the marker tests of `do_staple` and
  `do_verify`, including the second, conditional tool run of `do_verify`.
- `workflow.dfy` (module `Workflow`): the `__main__` block. It is a method
  over a configuration and an environment. The environment says whether
  the bundle exists and what each tool run would print. The method returns
  the commands run, the lines printed and how the run ends.
- `text.dfy` (module `Text`): the Python `str` operations used above, as
  functions. These are `in`, the second part of `split`, `strip()` (with
  Python's whitespace set) and `splitlines()` (with Python's line
  boundaries).
- `tools.dfy` (module `Tools`): the captured output of a tool run, the
  commands as a trace, and the `stdout + "\r\n" + stderr` glue.
- `optional.dfy` (module `Optional`): `Option`, standing for Python's
  `None`.

The loops of the source stay loops. `ParseArgs`, `ExtractUploadId`,
`CheckIsReady`, `Wait` and `Run` are methods. Each is proved against
functions (`CredentialsRequired`, `UploadIdOf`, `StatusOf`, `Settle`,
`PollCalls`) whose properties are proved as lemmas.

Three behaviours of the code are easy to misread, and the model keeps them
as written:

- `do_wait` returns -1 when the service reports an error. The guard
  `if not is_ok` treats -1 as true, so the run does not abort there and
  goes on to staple. `Workflow.Run` proves that the `WaitFailed` abort never
  happens.
- The pattern `[^0-9a-zA-Z-].` needs a second character, so "The upload ID
  is ABC123." yields "ABC123.", dot included (see
  `UploadId.TrailingDotKept`). The code cuts before the dot only when more
  text follows it (see `UploadId.DotBeforeTextCuts`).
- The identifier does not end at the first character outside the class.
  It ends at the first such character that is followed by a character
  other than a newline (see `UploadId.IdFromShape`).

## Model

| member | source | states |
|---|---|---|
| `Args.ParseArgs` | notarize.py:16-35 | credentials are required iff none of `-v`, `--verify-only`, `--install`, `--uninstall` is a whole token; the positional is declared iff neither `--install` nor `--uninstall` is a token |
| `Args.OnlySpecialFlagsMatter` | notarize.py:16-26 | token lists that agree on the four special flags get the same decisions, whatever other tokens they hold and in whatever order |
| `Args.NoAppfileNoCredentials` | notarize.py:23-35 | when the positional is dropped (install or uninstall), the credentials are never required |
| `Text.FindFrom` | notarize.py:99 | the result is the leftmost occurrence of the needle at or after the start position, or none when there is no occurrence there |
| `Text.SecondPart` | notarize.py:99-101 | `text.split(needle)[1]` starts right after the first (leftmost) occurrence and ends at the next non-overlapping occurrence, or at the end of the text when there is none; no occurrence starts inside it, and it never contains the needle |
| `Text.Strip` | notarize.py:101 | `strip()` keeps the slice between the leading and trailing whitespace, and its result neither starts nor ends with whitespace |
| `Text.StripOfUnindented` | notarize.py:105 | stripping text that has no leading whitespace only drops trailing whitespace and leaves a prefix |
| `Text.SplitLinesJoined` | notarize.py:143-145 | the lines of `a + "\r\n" + b` are the lines of `a`, then one empty line if `a` is empty or ends on a line boundary, then the lines of `b` |
| `Tools.CommandLine` | notarize.py:111-203 | the five command arrays (submission at lines 111-120, status query at 133-140, staple at 169-175, assessment at 183-190, validation at 198-203): every command on the bundle passes the bundle path last, and the submission names the `osx` platform |
| `Tools.ContainsCombined` | notarize.py:178-179 | a marker with no `\r` and no `\n` is in `stdout + "\r\n" + stderr` iff it is in stdout or in stderr |
| `UploadId.FirstSeparator` | notarize.py:103 | the cut is the leftmost position where a character outside `[0-9a-zA-Z-]` is followed by a character other than a newline, or the end of the text |
| `UploadId.ExtractUploadId` | notarize.py:88-107 | the needle loop returns exactly `UploadIdOf`: the id taken after the first needle that occurs, or `None` |
| `UploadId.IdByNeedlesNone` | notarize.py:97-107 | the needle loop returns `None` iff no needle occurs in the text |
| `UploadId.FirstNeedleDecides` | notarize.py:98-106 | the first needle that occurs decides the result, and the needles after it are never consulted |
| `UploadId.UploadIdCases` | notarize.py:93-106 | `None` iff neither "The upload ID is" nor "RequestUUID = " occurs; the second needle is used only when the first is absent |
| `UploadId.IdFromShape` | notarize.py:99-105 | the id is a prefix of the stripped segment and ends no later than the cut; each of its characters outside the class is last in the segment or stands before a newline; only whitespace lies between the id and the cut; the id has no surrounding whitespace |
| `UploadId.FirstNeedleLeads` | notarize.py:93-106 | an output that opens with "The upload ID is", and does not hold it again, yields the id taken from all the rest of it |
| `UploadId.SecondNeedleLeads` | notarize.py:93-106 | an output that opens with "RequestUUID = ", holds "The upload ID is" nowhere and does not hold "RequestUUID = " again, yields the id taken from all the rest of it |
| `UploadId.PlainIdAfterFirstNeedle` | notarize.py:93-106 | "The upload ID is", a blank and a non-empty id made only of `[0-9a-zA-Z-]` (a UUID, say) yields exactly that id |
| `UploadId.TrailingDotKept` | notarize.py:103-105 | "The upload ID is ABC123." yields "ABC123.", because the final dot has no second character for the pattern |
| `UploadId.DotBeforeTextCuts` | notarize.py:103-105 | "The upload ID is ABC123. Done" yields "ABC123" |
| `UploadId.RequestUuidExample` | notarize.py:93-105 | "RequestUUID = XYZ-789 " yields "XYZ-789" by the second needle |
| `UploadId.EmptyIdExample` | notarize.py:103-105 | "RequestUUID = ;x" yields the empty id, which the workflow treats as missing |
| `Status.CheckIsReady` | notarize.py:143-157 | the scan returns the order-free status of the lines: 1 if some line has both "Status Message" and "Package Approved", else 0 if some line has "Status: in progress", else -1; this is the status of the lines of stdout and stderr taken separately |
| `Status.StatusOfStreams` | notarize.py:143-145 | gluing the two streams with "\r\n" before `splitlines()` does not change the status |
| `Status.StatusOrderFree` | notarize.py:146-155 | the status does not depend on the order of the lines |
| `Status.StatusCodes` | notarize.py:146-155 | the status is one of 1, 0, -1, and an approval line gives 1 whatever in-progress lines surround it |
| `Status.Settle` | notarize.py:159-166 | the status `do_wait` settles on is one of the answers and is never 0; over a finite run of answers that are all 0 there is none |
| `Status.SettleIsFirst` | notarize.py:160-166 | the settled status is the answer of the first query that does not answer 0 |
| `Status.SettledAnswer` | notarize.py:145-166 | over the outputs the service prints, the settled status is 1 or -1 |
| `Status.PollCalls` | notarize.py:161-165 | the commands of the wait loop are queries and 10-second sleeps only, and they start with a query whenever there is an answer |
| `Status.PollCallsEnd` | notarize.py:159-166 | the trace alternates query and 10-second sleep, starting with a query; every sleep follows a 0 answer; a settled wait ends on the query whose answer is the first that is not 0 and is the settled status; an unsettled run holds one query and one sleep per answer |
| `Status.Wait` | notarize.py:159-166 | the loop returns the settled status of the answers, which is never 0, and runs exactly the commands `PollCalls` describes: a query per answer up to the first that is not 0, and a sleep after each 0 |
| `Markers.StapledByStreams` | notarize.py:177-180 | stapling succeeded iff "The staple and validate action worked!" is in stdout or in stderr |
| `Markers.VerifyByStreams` | notarize.py:192-210 | `do_verify` is true iff "Notarized Developer ID" is in the assessment output and "The validate action worked!" is in the validation output, each in either stream |
| `Markers.ValidationOnlyAfterAssessment` | notarize.py:195-210 | the validation tool runs iff the first marker was seen, and without that marker the answer is false |
| `Workflow.Run` | notarize.py:239-266 | install/uninstall only manage the wrapper; a missing bundle aborts before any tool runs; an already notarized bundle runs only the first assessment and prints success; verify-only never submits, polls or staples; a `None` or empty id aborts right after the submission; every query uses the extracted id; an error answer from the wait does not abort and stapling follows; a failed staple or final assessment aborts; the full command trace of a polling run is given; a completed run prints "Application notarized without errors" (only if it submitted) and then "Application verified and properly notarized"; a run that does not complete prints nothing, except that a failed final assessment after stapling has already printed the "notarized without errors" line |

## Left out

- `run_command` (notarize.py:67-86) is left out. Process spawning, UTF-8 decoding and the exit code are foreign I/O, and the exit code is never read. Each tool run is an input `ToolOutput(stdout, stderr)`.
- `init_logging` and every `log.*` call are left out, and so is `print(tmp)` at notarize.py:102. They are output only.
- `argparse` itself (notarize.py:28-51) is left out. This includes option syntax such as `--username=x`, prefix abbreviations such as `--verify`, and the error for missing required options. Only the token-scan decisions are modelled. The workflow takes the parsed values as a `Config`.
- The `sys.argv` fallback when `args` is empty (notarize.py:12-14) is left out. It reads process state.
- `time.sleep` and `time.time` are not executed. A sleep is recorded as a `Sleep(10)` command.
- `Status.Wait`: the source loop is unbounded. The model polls over a finite sequence of query outputs. When every one answers 0, the run ends as `StillPolling`, where the script would keep polling.
- `do_install_uninstall` (notarize.py:212-232) is left out. Its filesystem writes, chmod and removal are recorded only as a `ManageWrapper` command, and the "Script installed" messages are not recorded.
- `os.path.exists` (notarize.py:242) is a boolean input of the environment.
- `Workflow.Config`: the credentials are strings, and the model assumes a run that submits has all three. When they are omitted, `argparse` leaves them `None`. The token scan (notarize.py:23-26) looks for whole tokens and does not know argparse's syntax. So `notarize.py -- -v`, with a bundle named `-v`, makes the credentials optional. argparse then takes `-v` as the `appfile`, and `verify_only`, `install` and `uninstall` stay false. The script goes on to submit with `None` credentials, and `" ".join(cmd)` at notarize.py:121 raises `TypeError`.
- `Args.ParseArgs`: models only the token scan. Which token argparse assigns to which option is not modelled, so the model cannot relate the scan's decisions to the parsed `verify_only`, `install` and `uninstall` values. The `--` case above is one mismatch.
- A fatal condition is modelled as an `Aborted` outcome. The traceback and the process exit status are left out.
