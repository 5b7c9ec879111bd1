/** The decisions `parse_args` takes from the raw argument tokens before it
    hands them to the option parser: whether the credentials options are
    required, and whether the bundle path positional is declared. */
module Args {

  /** The tokens that make the credentials optional. */
  const SpecialFlags := ["-v", "--verify-only", "--install", "--uninstall"]

  /** What the token scan decides. */
  datatype Decisions = Decisions(credentialsRequired: bool, appfileDeclared: bool)

  /** Credentials (`-u`, `-p`, `-b`) are required unless one of the four
      flags stands in the list as a whole token. */
  predicate CredentialsRequired(args: seq<string>) {
    "-v" !in args && "--verify-only" !in args && "--install" !in args && "--uninstall" !in args
  }

  /** The bundle path positional is declared unless `--install` or
      `--uninstall` is a token. */
  predicate AppfileDeclared(args: seq<string>) {
    "--install" !in args && "--uninstall" !in args
  }

  /** The scan of `parse_args`: the first special flag found clears the
      requirement and ends the loop; then the positional is declared or not. */
  method ParseArgs(args: seq<string>) returns (d: Decisions)
    ensures d.credentialsRequired <==> CredentialsRequired(args)
    ensures d.appfileDeclared <==> AppfileDeclared(args)
  {
    var credentialsRequired := true;
    var k := 0;
    while k < |SpecialFlags|
      invariant 0 <= k <= |SpecialFlags|
      invariant credentialsRequired
      invariant forall j :: 0 <= j < k ==> SpecialFlags[j] !in args
    {
      if SpecialFlags[k] in args {
        credentialsRequired := false;
        break;
      }
      k := k + 1;
    }
    assert SpecialFlags[0] == "-v" && SpecialFlags[1] == "--verify-only";
    assert SpecialFlags[2] == "--install" && SpecialFlags[3] == "--uninstall";
    d := Decisions(credentialsRequired, AppfileDeclared(args));
  }

  /** Only the four flags matter: two token lists that agree on which of
      them they hold get the same decisions, whatever else they hold and in
      whatever order. */
  lemma OnlySpecialFlagsMatter(a: seq<string>, b: seq<string>)
    requires forall f :: f in SpecialFlags ==> (f in a <==> f in b)
    ensures CredentialsRequired(a) == CredentialsRequired(b)
    ensures AppfileDeclared(a) == AppfileDeclared(b)
  {
    assert SpecialFlags[0] == "-v" && SpecialFlags[1] == "--verify-only";
    assert SpecialFlags[2] == "--install" && SpecialFlags[3] == "--uninstall";
  }

  /** Dropping the positional (install or uninstall mode) always makes the
      credentials optional. */
  lemma NoAppfileNoCredentials(args: seq<string>)
    ensures !AppfileDeclared(args) ==> !CredentialsRequired(args)
  {
  }
}
