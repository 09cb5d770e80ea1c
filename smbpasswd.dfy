/** The `smbpasswd` function (src/app.py:87-161): it builds the argument vector
    and the credential payload for the external `smbpasswd` tool, runs it, and
    turns what the run produced into `None` (success) or an `APIServerErrorCode`.
    The run itself is a parameter `run`: what the tool does given an argument
    vector and the bytes written to its standard input. */
module Smbpasswd {
  import opened Wrappers
  import opened Text
  import opened ApiCodes

  const EXECUTABLE: string := "/usr/bin/smbpasswd"

  /** The argument vector: scripted mode (`-s`), a password change on the remote
      server `remote` (`-r`), for `username` (`-U`). Every value is an argument
      of its own; nothing passes through a shell. */
  function Command(remote: string, username: string): (argv: seq<string>)
    ensures |argv| == 6 && argv[0] == EXECUTABLE
    ensures argv[1] == "-s" && argv[2] == "-r" && argv[3] == remote && argv[4] == "-U" && argv[5] == username
  {
    [EXECUTABLE, "-s", "-r", remote, "-U", username]
  }

  /** The vector determines the server and the user it was built for. */
  lemma CommandInjective(remote1: string, username1: string, remote2: string, username2: string)
    requires Command(remote1, username1) == Command(remote2, username2)
    ensures remote1 == remote2 && username1 == username2
  {
  }

  /** The text written to the tool's standard input: `'\n'.join([old, new, new]) + '\n'`. */
  function Payload(oldPassword: string, newPassword: string): string
  {
    Join([oldPassword, newPassword, newPassword], "\n") + "\n"
  }

  /** The payload is the old password, then the new one twice, each on a line of its own. */
  lemma PayloadLayout(oldPassword: string, newPassword: string)
    ensures Payload(oldPassword, newPassword)
      == oldPassword + "\n" + newPassword + "\n" + newPassword + "\n"
  {
    var sep := "\n";
    assert [newPassword, newPassword][1..] == [newPassword];
    assert Join([newPassword, newPassword], sep) == newPassword + sep + newPassword;
    assert [oldPassword, newPassword, newPassword][1..] == [newPassword, newPassword];
    assert Join([oldPassword, newPassword, newPassword], sep) == oldPassword + sep + (newPassword + sep + newPassword);
  }

  /** The tool reads the payload back as three lines: with no line feed in either
      password, splitting at line feeds gives old, new, new and the empty rest
      after the final line feed. */
  lemma PayloadLines(oldPassword: string, newPassword: string)
    requires '\n' !in oldPassword && '\n' !in newPassword
    ensures Split(Payload(oldPassword, newPassword), '\n') == [oldPassword, newPassword, newPassword, ""]
  {
    var parts := [oldPassword, newPassword, newPassword, ""];
    PayloadLayout(oldPassword, newPassword);
    assert parts[1..] == [newPassword, newPassword, ""];
    assert parts[2..] == [newPassword, ""];
    assert parts[3..] == [""];
    var sep := "\n";
    assert Join(parts[2..], sep) == newPassword + sep + "";
    assert Join(parts[1..], sep) == newPassword + sep + (newPassword + sep + "");
    assert Join(parts, sep) == oldPassword + sep + (newPassword + sep + (newPassword + sep + ""));
    assert Join(parts, sep) == Payload(oldPassword, newPassword);
    SplitJoin(parts, '\n');
  }

  /** The bytes sent on standard input: the old password's bytes, a line feed,
      the new password's bytes, a line feed, the new password's bytes again, and
      a final line feed. */
  lemma PayloadBytes(oldPassword: string, newPassword: string)
    requires IsAscii(oldPassword) && IsAscii(newPassword)
    ensures EncodeAscii(Payload(oldPassword, newPassword))
      == Some(AsciiBytes(oldPassword) + [10] + AsciiBytes(newPassword) + [10] + AsciiBytes(newPassword) + [10])
  {
    PayloadLayout(oldPassword, newPassword);
    var nl := "\n";
    assert AsciiBytes(nl) == [10];
    AsciiConcat(oldPassword, nl);
    AsciiConcat(oldPassword + nl, newPassword);
    AsciiConcat(oldPassword + nl + newPassword, nl);
    AsciiConcat(oldPassword + nl + newPassword + nl, newPassword);
    AsciiConcat(oldPassword + nl + newPassword + nl + newPassword, nl);
  }

  /** What running the tool can produce. `Exited` is a normal exit with the
      return code and the captured output; `TimedOut` is the 60-second limit of
      `communicate` expiring; `SubprocessFault` is any other `SubprocessError`;
      `LaunchFailed` is an exception neither handler catches: an `OSError` when
      the program cannot be started or a pipe fails, or the `ValueError` that
      `Popen` raises for an argument holding a NUL character. */
  datatype ProcResult =
    | Exited(returnCode: int, stdout: seq<byte>, stderr: seq<byte>)
    | TimedOut
    | SubprocessFault
    | LaunchFailed

  /** The external tool: what a run produces for an argument vector and the
      bytes written to standard input. */
  type Tool = (seq<string>, seq<byte>) -> ProcResult

  // ---------------------------------------------------------------------------
  // The token texts

  /** Every character of `s` is a visible ASCII character: no control
      character and no space. */
  predicate IsVisibleAscii(s: string)
  {
    forall i :: 0 <= i < |s| ==> 32 < s[i] as int < 128
  }

  /** A visible token encodes as ASCII, and its bytes hold no whitespace. */
  lemma VisibleHasNoSpace(s: string)
    requires s != [] && IsVisibleAscii(s)
    ensures IsAscii(s) && AsciiBytes(s) != [] && NoSpace(AsciiBytes(s))
  {
  }

  // Each name of `APIServerErrorCode`, and each key of `equivalents`, is a
  // visible ASCII text.
  lemma VisibleUnknownError() ensures IsVisibleAscii("UNKNOWN_ERROR") { }
  lemma VisibleTimeout() ensures IsVisibleAscii("TIMEOUT") { }
  lemma VisibleSmbpasswdError() ensures IsVisibleAscii("SMBPASSWD_ERROR") { }
  lemma VisibleNtStatusAccessDenied() ensures IsVisibleAscii("NT_STATUS_ACCESS_DENIED") { }
  lemma VisibleNtStatusAccountDisabled() ensures IsVisibleAscii("NT_STATUS_ACCOUNT_DISABLED") { }
  lemma VisibleNtStatusAccountLockedOut() ensures IsVisibleAscii("NT_STATUS_ACCOUNT_LOCKED_OUT") { }
  lemma VisibleNtStatusAccountRestriction() ensures IsVisibleAscii("NT_STATUS_ACCOUNT_RESTRICTION") { }
  lemma VisibleNtStatusInvalidAccountName() ensures IsVisibleAscii("NT_STATUS_INVALID_ACCOUNT_NAME") { }
  lemma VisibleNtStatusNameTooLong() ensures IsVisibleAscii("NT_STATUS_NAME_TOO_LONG") { }
  lemma VisibleNtStatusPasswordExpired() ensures IsVisibleAscii("NT_STATUS_PASSWORD_EXPIRED") { }
  lemma VisibleLogonFailure() ensures IsVisibleAscii("NT_STATUS_LOGON_FAILURE") { }
  lemma VisibleNoSuchUser() ensures IsVisibleAscii("NT_STATUS_NO_SUCH_USER") { }

  /** Every member's name is a nonempty visible ASCII text. */
  lemma NameIsVisible(c: ServerErrorCode)
    ensures c.Name() != [] && IsVisibleAscii(c.Name()) && IsAscii(c.Name())
  {
    match c
    case UnknownError => VisibleUnknownError();
    case Timeout => VisibleTimeout();
    case SmbpasswdError => VisibleSmbpasswdError();
    case NtStatusAccessDenied => VisibleNtStatusAccessDenied();
    case NtStatusAccountDisabled => VisibleNtStatusAccountDisabled();
    case NtStatusAccountLockedOut => VisibleNtStatusAccountLockedOut();
    case NtStatusAccountRestriction => VisibleNtStatusAccountRestriction();
    case NtStatusInvalidAccountName => VisibleNtStatusInvalidAccountName();
    case NtStatusNameTooLong => VisibleNtStatusNameTooLong();
    case NtStatusPasswordExpired => VisibleNtStatusPasswordExpired();
  }

  /** So is every equivalent string. */
  lemma EquivalentIsVisible(i: nat)
    requires i < |EQUIVALENT_TOKENS|
    ensures EQUIVALENT_TOKENS[i] != [] && IsVisibleAscii(EQUIVALENT_TOKENS[i]) && IsAscii(EQUIVALENT_TOKENS[i])
  {
    if i == 0 {
      VisibleLogonFailure();
    } else if i == 1 {
      VisibleNoSuchUser();
    } else {
      VisibleNtStatusAccessDenied();
    }
  }

  /** A member's name as `ex.name.encode('ascii')` gives it. */
  function NameBytes(c: ServerErrorCode): (b: seq<byte>)
    ensures |b| == |c.Name()| && forall i :: 0 <= i < |b| ==> b[i] as int == c.Name()[i] as int
  {
    NameIsVisible(c);
    AsciiBytes(c.Name())
  }

  /** The rules of the first loop (src/app.py:138-140): each member's own name,
      in declaration order, classifies as that member. */
  function DirectRules(): (rules: seq<(seq<byte>, ServerErrorCode)>)
    ensures |rules| == |SERVER_ERROR_CODES|
    ensures forall i :: 0 <= i < |rules| ==> rules[i] == (NameBytes(SERVER_ERROR_CODES[i]), SERVER_ERROR_CODES[i])
  {
    seq(|SERVER_ERROR_CODES|, i requires 0 <= i < |SERVER_ERROR_CODES| =>
      (NameBytes(SERVER_ERROR_CODES[i]), SERVER_ERROR_CODES[i]))
  }

  /** The `equivalents` dictionary (src/app.py:132-136), in insertion order:
      three upstream status strings, all classified as `NT_STATUS_ACCESS_DENIED`. */
  const EQUIVALENT_TOKENS: seq<string> :=
    ["NT_STATUS_LOGON_FAILURE", "NT_STATUS_NO_SUCH_USER", "NT_STATUS_ACCESS_DENIED"]

  function Equivalents(): (rules: seq<(seq<byte>, ServerErrorCode)>)
    ensures |rules| == |EQUIVALENT_TOKENS|
    ensures forall i :: 0 <= i < |rules| ==> rules[i].1 == NtStatusAccessDenied
  {
    EquivalentIsVisible(0);
    EquivalentIsVisible(1);
    EquivalentIsVisible(2);
    [ (AsciiBytes(EQUIVALENT_TOKENS[0]), NtStatusAccessDenied),
      (AsciiBytes(EQUIVALENT_TOKENS[1]), NtStatusAccessDenied),
      (AsciiBytes(EQUIVALENT_TOKENS[2]), NtStatusAccessDenied) ]
  }

  /** The characters of a member's name at distances 0, 3 and 6 from its end;
      they already tell all ten names apart. */
  function EndSignature(c: ServerErrorCode): (char, char, char)
  {
    match c
    case UnknownError => ('R', 'R', 'N')
    case Timeout => ('T', 'E', 'T')
    case SmbpasswdError => ('R', 'R', 'D')
    case NtStatusAccessDenied => ('D', 'N', '_')
    case NtStatusAccountDisabled => ('D', 'B', 'I')
    case NtStatusAccountLockedOut => ('T', '_', 'K')
    case NtStatusAccountRestriction => ('N', 'T', 'R')
    case NtStatusInvalidAccountName => ('E', 'N', 'N')
    case NtStatusNameTooLong => ('G', 'L', 'O')
    case NtStatusPasswordExpired => ('D', 'I', 'E')
  }

  lemma NameEndSignature(c: ServerErrorCode)
    ensures var n := c.Name();
      |n| >= 7 && EndSignature(c) == (n[|n| - 1], n[|n| - 4], n[|n| - 7])
  {
  }

  lemma EndSignatureInjective(a: ServerErrorCode, b: ServerErrorCode)
    requires a != b
    ensures EndSignature(a) != EndSignature(b)
  {
  }

  lemma NameStringsSuffixFree(a: ServerErrorCode, b: ServerErrorCode)
    requires a != b
    ensures !SuffixRelated(a.Name(), b.Name())
  {
    var s, t := a.Name(), b.Name();
    NameEndSignature(a);
    NameEndSignature(b);
    EndSignatureInjective(a, b);
    var x, y := EndSignature(a), EndSignature(b);
    if x.0 != y.0 { DifferFromEnd(s, t, 0); }
    else if x.1 != y.1 { DifferFromEnd(s, t, 3); }
    else { DifferFromEnd(s, t, 6); }
  }

  /** No member's name is a suffix of another's, so at most one name can end a
      given stderr. */
  lemma NamesSuffixFree(a: ServerErrorCode, b: ServerErrorCode)
    requires a != b
    ensures !SuffixRelated(NameBytes(a), NameBytes(b))
  {
    NameIsVisible(a);
    NameIsVisible(b);
    NameStringsSuffixFree(a, b);
    AsciiEndsWith(a.Name(), b.Name());
    AsciiEndsWith(b.Name(), a.Name());
  }

  /** `NT_STATUS_LOGON_FAILURE` and `NT_STATUS_NO_SUCH_USER` are not suffixes of
      any member's name, nor the other way round; the third equivalent is the
      name of `NT_STATUS_ACCESS_DENIED` itself. */
  lemma EquivalentsApartFromNames(i: nat, c: ServerErrorCode)
    requires i < |EQUIVALENT_TOKENS|
    requires i < 2 || c != NtStatusAccessDenied
    ensures !SuffixRelated(Equivalents()[i].0, NameBytes(c))
  {
    var s, t := EQUIVALENT_TOKENS[i], c.Name();
    NameIsVisible(c);
    EquivalentIsVisible(i);
    if i == 2 {
      assert s == NtStatusAccessDenied.Name();
      NameStringsSuffixFree(NtStatusAccessDenied, c);
    } else if s[|s| - 1] != t[|t| - 1] { DifferFromEnd(s, t, 0); }
    else if s[|s| - 2] != t[|t| - 2] { DifferFromEnd(s, t, 1); }
    else { assert false; }
    AsciiEndsWith(s, t);
    AsciiEndsWith(t, s);
  }

  /** The first rule, in order, whose token ends `s`: the loop `for token, code
      in rules: if s.endswith(token): return code`. */
  function FirstSuffix(s: seq<byte>, rules: seq<(seq<byte>, ServerErrorCode)>): (r: Option<ServerErrorCode>)
    ensures r.None? <==> forall i :: 0 <= i < |rules| ==> !EndsWith(s, rules[i].0)
    ensures r.Some? ==>
      exists i :: 0 <= i < |rules| && EndsWith(s, rules[i].0) && r.value == rules[i].1
        && forall j :: 0 <= j < i ==> !EndsWith(s, rules[j].0)
  {
    if rules == [] then None
    else if EndsWith(s, rules[0].0) then Some(rules[0].1)
    else
      var r := FirstSuffix(s, rules[1..]);
      assert forall i :: 1 <= i < |rules| ==> rules[1..][i - 1] == rules[i];
      r
  }

  /** How a nonzero exit is classified (src/app.py:130-146): strip stderr; a
      member's own name at its end wins; else an equivalent string at its end
      gives `NT_STATUS_ACCESS_DENIED`; else `SMBPASSWD_ERROR`. */
  function Classify(stderr: seq<byte>): ServerErrorCode
  {
    var s := Strip(stderr);
    match FirstSuffix(s, DirectRules())
    case Some(c) => c
    case None =>
      match FirstSuffix(s, Equivalents())
      case Some(c) => c
      case None => SmbpasswdError
  }

  /** What `smbpasswd` returns for a run of the tool, with the exception
      handlers as they are evidently meant: a timed-out run gives `TIMEOUT`, any
      other `SubprocessError` gives `UNKNOWN_ERROR`, and the launch failure
      escapes uncaught. */
  function Outcome(proc: ProcResult): Completion<Option<ServerErrorCode>>
  {
    match proc
    case Exited(returnCode, _, stderr) => Returned(if returnCode == 0 then None else Some(Classify(stderr)))
    case TimedOut => Returned(Some(Timeout))
    case SubprocessFault => Returned(Some(ServerErrorCode.UnknownError))
    case LaunchFailed => Raised
  }

  /** `Outcome` with the handlers as written: `communicate` signals the expired
      limit with `subprocess.TimeoutExpired`, a `SubprocessError` and not a
      `TimeoutError`, so `except TimeoutError` (src/app.py:148) never runs and
      the `SubprocessError` handler answers `UNKNOWN_ERROR` instead (once the
      child has exited: leaving the `with` block waits for it). */
  function OutcomeAsWritten(proc: ProcResult): Completion<Option<ServerErrorCode>>
  {
    match proc
    case Exited(returnCode, _, stderr) => Returned(if returnCode == 0 then None else Some(Classify(stderr)))
    case TimedOut => Returned(Some(ServerErrorCode.UnknownError))
    case SubprocessFault => Returned(Some(ServerErrorCode.UnknownError))
    case LaunchFailed => Raised
  }

  /** The whole call `smbpasswd(username, old, new)` against the configured
      server `remote`. A password outside ASCII makes `encode('ascii')` raise
      `UnicodeEncodeError`, which nothing catches. */
  function Invoke(remote: string, username: string, oldPassword: string, newPassword: string,
                  run: Tool): Completion<Option<ServerErrorCode>>
  {
    match EncodeAscii(Payload(oldPassword, newPassword))
    case None => Raised
    case Some(input) => Outcome(run(Command(remote, username), input))
  }

  /** `smbpasswd` (src/app.py:87-161): builds the command and the payload, runs
      the tool, and classifies the result with the two loops over the rules. */
  method Run(remote: string, username: string, oldPassword: string, newPassword: string,
             run: Tool)
    returns (result: Completion<Option<ServerErrorCode>>)
    ensures result == Invoke(remote, username, oldPassword, newPassword, run)
  {
    var command := Command(remote, username);
    var inputParam := [oldPassword, newPassword, newPassword];
    var input := EncodeAscii(Join(inputParam, "\n") + "\n");
    assert input == EncodeAscii(Payload(oldPassword, newPassword));
    if input.None? {
      return Raised;
    }
    var proc := run(command, input.value);
    match proc {
      case LaunchFailed =>
        return Raised;
      case TimedOut =>
        return Returned(Some(Timeout));
      case SubprocessFault =>
        return Returned(Some(ServerErrorCode.UnknownError));
      case Exited(returnCode, _, stderr) =>
        if returnCode == 0 {
          return Returned(None);
        }
        var s := Strip(stderr);
        ghost var rules := DirectRules();
        var i := 0;
        while i < |SERVER_ERROR_CODES|
          invariant 0 <= i <= |SERVER_ERROR_CODES|
          invariant FirstSuffix(s, rules) == FirstSuffix(s, rules[i..])
        {
          var ex := SERVER_ERROR_CODES[i];
          FirstSuffixStep(s, rules, i);
          if EndsWith(s, NameBytes(ex)) {
            assert Classify(stderr) == ex;
            return Returned(Some(ex));
          }
          i := i + 1;
        }
        assert rules[i..] == [];
        var equivalents := Equivalents();
        var j := 0;
        while j < |equivalents|
          invariant 0 <= j <= |equivalents|
          invariant FirstSuffix(s, equivalents) == FirstSuffix(s, equivalents[j..])
        {
          var (equivalent, val) := equivalents[j];
          FirstSuffixStep(s, equivalents, j);
          if EndsWith(s, equivalent) {
            assert Classify(stderr) == val;
            return Returned(Some(val));
          }
          j := j + 1;
        }
        assert equivalents[j..] == [];
        assert Classify(stderr) == SmbpasswdError;
        return Returned(Some(SmbpasswdError));
    }
  }

  /** One step of the first-match loop: rule `i` decides if its token ends `s`,
      and otherwise the search goes on with the rules after it. */
  lemma FirstSuffixStep(s: seq<byte>, rules: seq<(seq<byte>, ServerErrorCode)>, i: nat)
    requires i < |rules|
    ensures FirstSuffix(s, rules[i..])
      == if EndsWith(s, rules[i].0) then Some(rules[i].1) else FirstSuffix(s, rules[i + 1..])
  {
    assert rules[i..][0] == rules[i];
    assert rules[i..][1..] == rules[i + 1..];
  }

  // ---------------------------------------------------------------------------
  // Properties of the classification

  /** Exit code 0 is success whatever the tool printed. */
  lemma ExitZeroIsSuccess(stdout: seq<byte>, stderr: seq<byte>)
    ensures Outcome(Exited(0, stdout, stderr)) == Returned(None)
  {
  }

  /** Every way a run can end leads to exactly one answer: `None` only for exit
      code 0, an error code for every other exit, for the expired limit and for
      other subprocess faults, and an escaping exception only when the program
      could not be started. */
  lemma OutcomeCases(proc: ProcResult)
    ensures Outcome(proc) == Returned(None) <==> proc.Exited? && proc.returnCode == 0
    ensures proc.Exited? && proc.returnCode != 0 ==> Outcome(proc) == Returned(Some(Classify(proc.stderr)))
    ensures proc.TimedOut? ==> Outcome(proc) == Returned(Some(Timeout))
    ensures proc.SubprocessFault? ==> Outcome(proc) == Returned(Some(ServerErrorCode.UnknownError))
    ensures Outcome(proc) == Raised <==> proc.LaunchFailed?
  {
  }

  lemma ListedAt(c: ServerErrorCode) returns (k: nat)
    ensures k < |SERVER_ERROR_CODES| && SERVER_ERROR_CODES[k] == c
  {
    k := (c.Code() + 1) as nat;
    match c
    case _ => assert SERVER_ERROR_CODES[k] == c;
  }

  /** At most one member's name ends a given byte string. */
  lemma AtMostOneName(s: seq<byte>, a: ServerErrorCode, b: ServerErrorCode)
    requires EndsWith(s, NameBytes(a)) && EndsWith(s, NameBytes(b))
    ensures a == b
  {
    SuffixesOfOneAreRelated(s, NameBytes(a), NameBytes(b));
    if a != b {
      NamesSuffixFree(a, b);
    }
  }

  /** A member's own name at the end of the stripped stderr gives that member,
      whichever member it is (`TIMEOUT`, `UNKNOWN_ERROR` and `SMBPASSWD_ERROR`
      included). */
  lemma NameMatchWins(stderr: seq<byte>, c: ServerErrorCode)
    requires EndsWith(Strip(stderr), NameBytes(c))
    ensures Classify(stderr) == c
  {
    var s := Strip(stderr);
    var k := ListedAt(c);
    var r := FirstSuffix(s, DirectRules());
    assert EndsWith(s, DirectRules()[k].0);
    var i :| 0 <= i < |DirectRules()| && EndsWith(s, DirectRules()[i].0) && r.value == DirectRules()[i].1;
    AtMostOneName(s, c, r.value);
  }

  /** Any of the three equivalent strings at the end of the stripped stderr gives
      `NT_STATUS_ACCESS_DENIED`; no member's name can end it at the same time
      except that of `NT_STATUS_ACCESS_DENIED` itself. */
  lemma EquivalentMatch(stderr: seq<byte>, i: nat)
    requires i < |EQUIVALENT_TOKENS| && EndsWith(Strip(stderr), Equivalents()[i].0)
    ensures Classify(stderr) == NtStatusAccessDenied
  {
    var s := Strip(stderr);
    match FirstSuffix(s, DirectRules())
    case Some(c) =>
      var k :| 0 <= k < |DirectRules()| && EndsWith(s, DirectRules()[k].0) && c == DirectRules()[k].1;
      SuffixesOfOneAreRelated(s, Equivalents()[i].0, NameBytes(c));
      if c != NtStatusAccessDenied {
        EquivalentsApartFromNames(i, c);
      }
    case None =>
      assert FirstSuffix(s, Equivalents()).Some?;
  }

  /** No member's name and no equivalent string ends `s`. */
  predicate NoKnownToken(s: seq<byte>)
  {
    && (forall c: ServerErrorCode :: !EndsWith(s, NameBytes(c)))
    && (forall i :: 0 <= i < |EQUIVALENT_TOKENS| ==> !EndsWith(s, Equivalents()[i].0))
  }

  /** A nonzero exit whose stripped stderr ends with no known token gives
      `SMBPASSWD_ERROR`. */
  lemma UnknownTextIsSmbpasswdError(stderr: seq<byte>)
    requires NoKnownToken(Strip(stderr))
    ensures Classify(stderr) == SmbpasswdError
  {
    var s := Strip(stderr);
    assert forall i :: 0 <= i < |DirectRules()| ==> !EndsWith(s, DirectRules()[i].0) by {
      forall i | 0 <= i < |DirectRules()| ensures !EndsWith(s, DirectRules()[i].0) {
        assert DirectRules()[i].0 == NameBytes(SERVER_ERROR_CODES[i]);
      }
    }
  }

  /** When the stripped stderr `s` accounts for the code `c`: `c`'s own name ends
      it, or `c` is `NT_STATUS_ACCESS_DENIED` and an equivalent string ends it,
      or `c` is `SMBPASSWD_ERROR` and no known token ends it. */
  predicate Explains(s: seq<byte>, c: ServerErrorCode)
  {
    || EndsWith(s, NameBytes(c))
    || (c == NtStatusAccessDenied && exists i :: 0 <= i < |EQUIVALENT_TOKENS| && EndsWith(s, Equivalents()[i].0))
    || (c == SmbpasswdError && NoKnownToken(s))
  }

  /** The classification of a nonzero exit, exactly: the answer is `c` if and
      only if the stripped stderr accounts for `c`. */
  lemma ClassifyExactly(stderr: seq<byte>, c: ServerErrorCode)
    ensures Classify(stderr) == c <==> Explains(Strip(stderr), c)
  {
    if Explains(Strip(stderr), c) {
      ExplainedIsClassified(stderr, c);
    }
    ClassifiedIsExplained(stderr);
  }

  lemma ExplainedIsClassified(stderr: seq<byte>, c: ServerErrorCode)
    requires Explains(Strip(stderr), c)
    ensures Classify(stderr) == c
  {
    var s := Strip(stderr);
    if EndsWith(s, NameBytes(c)) {
      NameMatchWins(stderr, c);
    } else if c == NtStatusAccessDenied {
      var i :| 0 <= i < |EQUIVALENT_TOKENS| && EndsWith(s, Equivalents()[i].0);
      EquivalentMatch(stderr, i);
    } else {
      UnknownTextIsSmbpasswdError(stderr);
    }
  }

  lemma ClassifiedIsExplained(stderr: seq<byte>)
    ensures Explains(Strip(stderr), Classify(stderr))
  {
    var s := Strip(stderr);
    match FirstSuffix(s, DirectRules())
    case Some(d) =>
      var k :| 0 <= k < |DirectRules()| && EndsWith(s, DirectRules()[k].0) && d == DirectRules()[k].1;
      assert EndsWith(s, NameBytes(d));
    case None =>
      forall d: ServerErrorCode ensures !EndsWith(s, NameBytes(d)) {
        var k := ListedAt(d);
        assert DirectRules()[k].0 == NameBytes(d);
      }
      match FirstSuffix(s, Equivalents())
      case Some(d) =>
        var k :| 0 <= k < |Equivalents()| && EndsWith(s, Equivalents()[k].0) && d == Equivalents()[k].1;
      case None =>
        assert NoKnownToken(s);
  }

  lemma EquivalentHasNoSpace(i: nat)
    requires i < |EQUIVALENT_TOKENS|
    ensures Equivalents()[i].0 != [] && NoSpace(Equivalents()[i].0)
  {
    EquivalentIsVisible(i);
    VisibleHasNoSpace(EQUIVALENT_TOKENS[i]);
  }

  /** Two byte strings that every token ends alike are explained alike. */
  lemma ExplainsAlike(s: seq<byte>, e: seq<byte>, c: ServerErrorCode)
    requires forall d: ServerErrorCode :: EndsWith(s, NameBytes(d)) <==> EndsWith(e, NameBytes(d))
    requires forall i :: 0 <= i < |EQUIVALENT_TOKENS| ==>
      (EndsWith(s, Equivalents()[i].0) <==> EndsWith(e, Equivalents()[i].0))
    ensures Explains(s, c) <==> Explains(e, c)
  {
    assert NoKnownToken(s) <==> NoKnownToken(e);
  }

  /** Removing whitespace at both ends of stderr, as the code does, classifies
      exactly as removing it only at the end would: no token holds whitespace,
      so leading whitespace never decides a suffix match. */
  lemma TrailingTrimSuffices(stderr: seq<byte>, c: ServerErrorCode)
    ensures Classify(stderr) == c <==> Explains(TrimEnd(stderr), c)
  {
    var s, e := Strip(stderr), TrimEnd(stderr);
    forall d: ServerErrorCode
      ensures EndsWith(s, NameBytes(d)) <==> EndsWith(e, NameBytes(d))
    {
      NameIsVisible(d);
      VisibleHasNoSpace(d.Name());
      StripEndsLikeTrimEnd(stderr, NameBytes(d));
    }
    forall i | 0 <= i < |EQUIVALENT_TOKENS|
      ensures EndsWith(s, Equivalents()[i].0) <==> EndsWith(e, Equivalents()[i].0)
    {
      EquivalentHasNoSpace(i);
      StripEndsLikeTrimEnd(stderr, Equivalents()[i].0);
    }
    ExplainsAlike(s, e, c);
    ClassifyExactly(stderr, c);
  }

  /** The as-written handlers differ from the intended ones exactly on a
      timed-out run, which they report as `UNKNOWN_ERROR` instead of `TIMEOUT`. */
  lemma TimeoutAsWritten(proc: ProcResult)
    ensures OutcomeAsWritten(proc) != Outcome(proc) <==> proc.TimedOut?
    ensures OutcomeAsWritten(TimedOut) == Returned(Some(ServerErrorCode.UnknownError))
  {
  }

  lemma PayloadAscii(oldPassword: string, newPassword: string)
    ensures IsAscii(Payload(oldPassword, newPassword)) <==> IsAscii(oldPassword) && IsAscii(newPassword)
  {
    PayloadLayout(oldPassword, newPassword);
    var p := Payload(oldPassword, newPassword);
    var n, m := |oldPassword|, |newPassword|;
    if IsAscii(p) {
      assert forall i :: 0 <= i < n ==> oldPassword[i] == p[i];
      assert forall i :: 0 <= i < m ==> newPassword[i] == p[n + 1 + i];
    }
  }

  /** `smbpasswd` lets an exception escape exactly when a password is not ASCII
      or the run ends in an exception neither handler catches; otherwise it
      returns `None` or a member of `APIServerErrorCode`. */
  lemma InvokeRaises(remote: string, username: string, oldPassword: string, newPassword: string,
                     run: Tool)
    ensures Invoke(remote, username, oldPassword, newPassword, run) == Raised <==>
      || !(IsAscii(oldPassword) && IsAscii(newPassword))
      || (PayloadAscii(oldPassword, newPassword);
          run(Command(remote, username), AsciiBytes(Payload(oldPassword, newPassword))).LaunchFailed?)
  {
    PayloadAscii(oldPassword, newPassword);
  }
}
