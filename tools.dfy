/** What the script sees of the external tools it runs (`xcrun altool`,
    `xcrun stapler`, `spctl`): the captured text of one run, and the commands
    it issues, recorded as a trace instead of being executed. */
module Tools {
  import opened Text

  /** The decoded standard output and standard error of one tool run. The
      exit code is captured by the script but never consulted, so it is not
      kept. */
  datatype ToolOutput = ToolOutput(stdout: string, stderr: string)

  /** The commands the script issues, with the arguments that vary. */
  datatype Action =
    | Assess(appfile: string)              // spctl -a -v -t install <appfile>
    | ValidateTicket(appfile: string)      // xcrun stapler validate <appfile>
    | Submit(appfile: string, username: string, password: string, bundleId: string)
                                           // xcrun altool -t osx --primary-bundle-id .. --notarize-app ..
    | QueryStatus(uploadId: string, username: string, password: string)
                                           // xcrun altool --notarization-info <id> -u .. -p ..
    | Sleep(seconds: nat)                  // time.sleep between status queries
    | StapleTicket(appfile: string)        // xcrun stapler staple -v <appfile>
    | ManageWrapper(install: bool)         // write or remove the wrapper script

  /** The argument vector of each command: every command on the bundle
      passes its path last, and the submission always names the "osx"
      platform. */
  function CommandLine(a: Action): (argv: seq<string>)
    requires !a.Sleep? && !a.ManageWrapper?
    ensures |argv| >= 4 && argv[0] in {"spctl", "xcrun"}
    ensures (a.Assess? || a.ValidateTicket? || a.Submit? || a.StapleTicket?) ==> argv[|argv| - 1] == a.appfile
    ensures a.Submit? ==> argv[2..4] == ["-t", "osx"]
  {
    match a
    case Assess(app) => ["spctl", "-a", "-v", "-t", "install", app]
    case ValidateTicket(app) => ["xcrun", "stapler", "validate", app]
    case Submit(app, user, pass, bundle) =>
      ["xcrun", "altool", "-t", "osx", "--primary-bundle-id", bundle,
       "--notarize-app", "-u", user, "-p", pass, "-f", app]
    case QueryStatus(id, user, pass) =>
      ["xcrun", "altool", "--notarization-info", id, "-u", user, "-p", pass]
    case StapleTicket(app) => ["xcrun", "stapler", "staple", "-v", app]
  }

  /** The text that the status, staple and verify checks search: standard
      output, "\r\n", standard error. */
  function Combined(o: ToolOutput): string {
    o.stdout + "\r\n" + o.stderr
  }

  /** A marker that holds no '\r' and no '\n' cannot straddle the glue, so
      it is found in the combined text exactly when one of the two streams
      holds it. */
  lemma ContainsCombined(o: ToolOutput, marker: string)
    requires '\r' !in marker && '\n' !in marker
    ensures Contains(Combined(o), marker) <==> Contains(o.stdout, marker) || Contains(o.stderr, marker)
  {
    var s := Combined(o);
    if Contains(o.stdout, marker) {
      var i: nat :| i <= |o.stdout| && OccursAt(o.stdout, marker, i);
      OccursShifted(o.stdout, "\r\n" + o.stderr, marker, i);
      assert o.stdout + ("\r\n" + o.stderr) == s;
    }
    if Contains(o.stderr, marker) {
      var i: nat :| i <= |o.stderr| && OccursAt(o.stderr, marker, i);
      OccursAfter(o.stdout + "\r\n", o.stderr, marker, i);
    }
    if Contains(s, marker) {
      var i: nat :| i <= |s| && OccursAt(s, marker, i);
      OccursInCombined(o, marker, i);
    }
  }

  lemma OccursShifted(a: string, b: string, marker: string, i: nat)
    requires OccursAt(a, marker, i)
    ensures OccursAt(a + b, marker, i)
  {
    assert (a + b)[i..i + |marker|] == a[i..i + |marker|];
  }

  lemma OccursAfter(a: string, b: string, marker: string, i: nat)
    requires OccursAt(b, marker, i)
    ensures OccursAt(a + b, marker, |a| + i)
  {
    assert (a + b)[|a| + i..|a| + i + |marker|] == b[i..i + |marker|];
  }

  /** An occurrence in the combined text lies in one stream or covers the glue. */
  lemma OccursInCombined(o: ToolOutput, marker: string, i: nat)
    requires OccursAt(Combined(o), marker, i)
    ensures Contains(o.stdout, marker) || Contains(o.stderr, marker) || '\r' in marker || '\n' in marker
  {
    var s := Combined(o);
    var n := |o.stdout|;
    if i + |marker| <= n {
      assert o.stdout[i..i + |marker|] == s[i..i + |marker|];
      assert OccursAt(o.stdout, marker, i);
    } else if i >= n + 2 {
      var t: nat := i - n - 2;
      assert o.stderr[t..t + |marker|] == s[i..i + |marker|];
      assert OccursAt(o.stderr, marker, t);
    } else if |marker| == 0 {
      assert OccursAt(o.stdout, marker, 0);
    } else {
      // The window covers the '\r' or the '\n' of the glue.
      var p := if i < n then n else i;
      assert s[i..i + |marker|][p - i] == s[p];
      assert marker[p - i] in "\r\n";
    }
  }
}
