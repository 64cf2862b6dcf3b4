/** The front end as a whole: `parse_arguments_and_get_passphrase` fills one
    mutable invocation record field by field, and `free_invocation` releases
    it, zeroing the passphrase first. */
module Invocation {
  import opened Types
  import opened CStrings
  import opened Parser
  import opened Hardness
  import opened SecretAcquisition

  /** `invocation_state_t`. A NULL pointer field is `None` (`null` for the
      passphrase buffer); the passphrase is a heap buffer holding a C string. */
  class InvocationState {
    var subcommand: Subcommand
    var device: Option<string>
    var file: Option<string>
    var passphrase: array?<char>
    var mixin: Option<string>
    var obfuscateDeviceInfo: bool
    var kdfHardness: KdfHardness

    /** The passphrase buffer, when there is one, holds a terminated C string. */
    ghost predicate Valid()
      reads this, passphrase
    {
      passphrase != null ==> NUL in passphrase[..]
    }

    /** The record's contents as a value. */
    function Value(): Invocation
      reads this, passphrase
    {
      Invocation(subcommand, device, file,
                 if passphrase == null then None else Some(CStr(passphrase[..])),
                 mixin, obfuscateDeviceInfo, kdfHardness)
    }

    /** A freshly allocated record for subcommand `sub`: no fields set. */
    constructor (sub: Subcommand)
      ensures Valid() && passphrase == null
      ensures Value() == Initial(sub)
    {
      subcommand := sub;
      device := None;
      file := None;
      passphrase := null;
      mixin := None;
      obfuscateDeviceInfo := false;
      kdfHardness := Unspecified;
    }

    /** One turn of the option loop: the option overwrites its field (a
        `-p` value in a fresh buffer, truncated by `strndup`); `recognised` is
        false for an unknown option, which changes nothing. */
    method ApplyOption(e: OptionEvent, longest: nat) returns (recognised: bool)
      requires Valid() && ArgumentIsCString(e)
      modifies this
      ensures Valid()
      ensures recognised == !e.UnknownOpt?
      ensures Value() == Apply(old(Value()), e, longest)
      ensures e.PassphraseOpt? ==> fresh(passphrase) && passphrase.Length <= longest + 1
      ensures !e.PassphraseOpt? ==> passphrase == old(passphrase)
    {
      recognised := true;
      match e
      case DeviceOpt(p) => device := Some(p);
      case FileOpt(p) => file := Some(p);
      case PassphraseOpt(s) =>
        var buf := Strndup(s, longest);
        passphrase := buf;
      case MixinOpt(m) => mixin := Some(m);
      case KdfOpt(a) => kdfHardness := KdfFromArg(a);
      case ObfuscateOpt => obfuscateDeviceInfo := true;
      case HelpOpt => subcommand := Help;
      case UnknownOpt => recognised := false;
    }
  }

  /** `free_invocation`: nothing for NULL; otherwise the passphrase's
      characters up to its terminator are zeroed in place before the buffer
      is released. The other fields are released without zeroing. */
  method FreeInvocation(inv: InvocationState?)
    requires inv != null ==> inv.Valid()
    modifies if inv != null && inv.passphrase != null then {inv.passphrase} else {}
    ensures inv != null && inv.passphrase != null ==>
      inv.passphrase[..] == Scrubbed(old(inv.passphrase[..]))
    ensures inv != null && inv.passphrase != null ==>
      var n := |CStr(old(inv.passphrase[..]))|;
      n < inv.passphrase.Length && CStr(inv.passphrase[..]) == [] &&
      forall i :: 0 <= i <= n ==> inv.passphrase[..][i] == NUL
  {
    if inv == null {
      return;
    }
    if inv.passphrase != null {
      ghost var secret := inv.passphrase[..];
      var n := CLen(inv.passphrase[..]);
      MemZero(inv.passphrase, n);
      ScrubbedZeroesTerminated(secret);
    }
  }

  /** How `parse_arguments_and_get_passphrase` ends: with the record, or by
      exiting with the bad-invocation or the unable-to-get-passphrase status. */
  datatype Outcome = Accepted(state: InvocationState) | BadInvocation | UnableToGetPassphrase

  /** The same three endings, with the record's final contents as a value. */
  datatype Verdict = Rejected | Unable | Ready(v: Invocation)

  /** A passphrase is read only for Enrol and Generate, and only when `-p` gave none. */
  predicate NeedsPassphrase(v: Invocation)
  {
    v.passphrase.None? && (v.subcommand == Enrol || v.subcommand == Generate)
  }

  /** The whole front end as a function of its inputs: the parser's decision,
      then hardness resolution, then passphrase acquisition. */
  function Run(argv: seq<string>, events: seq<OptionEvent>, operands: seq<string>,
               limits: Limits, memory: nat, console: Console): Verdict
    requires limits.longestPassphrase >= 2
  {
    match Decide(argv, events, operands, limits.longestPassphrase)
    case Reject => Rejected
    case Proceed(v) =>
      var w := WithHardness(v, memory, limits);
      if NeedsPassphrase(w) then
        match Acquired(console, limits.longestPassphrase)
        case None => Unable
        case Some(p) => Ready(w.(passphrase := Some(p)))
      else Ready(w)
  }

  /** The terminal's `c_lflag` after the front end: only a prompt touches it. */
  function LflagAfterRun(saved: bv32, argv: seq<string>, events: seq<OptionEvent>, operands: seq<string>,
                         limits: Limits, memory: nat, console: Console): bv32
    requires limits.longestPassphrase >= 2
  {
    match Decide(argv, events, operands, limits.longestPassphrase)
    case Reject => saved
    case Proceed(v) =>
      if NeedsPassphrase(WithHardness(v, memory, limits)) && console.kind == Tty
      then LflagAfterPrompt(saved, console)
      else saved
  }

  /** The option loop: a fresh record for `sub`, every reported option applied
      in turn; `invalid` says whether an unknown option was among them. */
  method ScanOptions(sub: Subcommand, events: seq<OptionEvent>, longest: nat)
    returns (state: InvocationState, invalid: bool)
    requires forall i :: 0 <= i < |events| ==> ArgumentIsCString(events[i])
    ensures fresh(state) && state.Valid()
    ensures state.subcommand == sub || state.subcommand == Help
    ensures state.passphrase != null ==> fresh(state.passphrase) && state.passphrase.Length <= longest + 1
    ensures state.Value() == Fold(Initial(sub), events, longest)
    ensures invalid == (UnknownOpt in events)
  {
    state := new InvocationState(sub);
    invalid := false;
    var i := 0;
    while i < |events|
      invariant 0 <= i <= |events|
      invariant fresh(state) && state.Valid()
      invariant state.subcommand == sub || state.subcommand == Help
      invariant state.passphrase != null ==> fresh(state.passphrase) && state.passphrase.Length <= longest + 1
      invariant state.Value() == Fold(Initial(sub), events[..i], longest)
      invariant invalid == (UnknownOpt in events[..i])
    {
      var recognised := state.ApplyOption(events[i], longest);
      if !recognised {
        invalid := true;
      }
      assert events[..i + 1] == events[..i] + [events[i]];
      assert events[..i + 1][..i] == events[..i];
      i := i + 1;
    }
    assert events[..i] == events;
  }

  /** After the table: hardness resolution, then, for an Enrol or Generate
      without `-p`, the passphrase read into a fresh LONGEST_VALID_PASSPHRASE + 1
      buffer. `ok` is false where the process would exit with the
      unable-to-get-passphrase status. */
  method CompleteInvocation(state: InvocationState, limits: Limits, memory: nat, console: Console, term: Terminal)
    returns (ok: bool)
    requires limits.longestPassphrase >= 2 && state.Valid()
    requires state.passphrase != null ==> state.passphrase.Length <= limits.longestPassphrase + 1
    modifies state, term
    ensures var w := WithHardness(old(state.Value()), memory, limits);
      && ok == (!NeedsPassphrase(w) || Acquired(console, limits.longestPassphrase).Some?)
      && (ok ==> state.Valid())
      && (ok ==> state.Value() ==
                 if NeedsPassphrase(w) then w.(passphrase := Acquired(console, limits.longestPassphrase)) else w)
      && term.lflag == if NeedsPassphrase(w) && console.kind == Tty
                       then LflagAfterPrompt(old(term.lflag), console) else old(term.lflag)
    ensures state.passphrase != null ==>
      (state.passphrase == old(state.passphrase) || fresh(state.passphrase)) &&
      state.passphrase.Length <= limits.longestPassphrase + 1
  {
    var longest := limits.longestPassphrase;
    if state.subcommand == Enrol && state.kdfHardness == Unspecified {
      state.kdfHardness := ResolveHardness(memory, limits.memlimitSensitive, limits.memlimitModerate);
    }
    ok := true;
    if state.passphrase == null && (state.subcommand == Enrol || state.subcommand == Generate) {
      var buf := new char[longest + 1];
      state.passphrase := buf;
      ok := ReadPassphraseInto(buf, term, console, longest);
    }
  }

  /** The parser's decision in terms of the scanned record. */
  lemma DecideAfterScan(argv: seq<string>, events: seq<OptionEvent>, operands: seq<string>, longest: nat,
                        sub: Subcommand, v: Invocation)
    requires |argv| >= 2 && MatchKeyword(argv[1]) == Some(sub)
    requires v == Fold(Initial(sub), events, longest)
    ensures Decide(argv, events, operands, longest) ==
      if v.subcommand != Help && (UnknownOpt in events || |operands| > 1 || !MeetsTable(v)) then Reject
      else Proceed(v)
  {
  }

  /** The front end's verdict and terminal state in terms of the parser's decision. */
  lemma RunAfterDecide(saved: bv32, argv: seq<string>, events: seq<OptionEvent>, operands: seq<string>,
                       limits: Limits, memory: nat, console: Console)
    requires limits.longestPassphrase >= 2
    ensures var d := Decide(argv, events, operands, limits.longestPassphrase);
      && (d.Reject? ==> Run(argv, events, operands, limits, memory, console) == Rejected)
      && (d.Reject? ==> LflagAfterRun(saved, argv, events, operands, limits, memory, console) == saved)
    ensures var d := Decide(argv, events, operands, limits.longestPassphrase);
      d.Proceed? ==>
        var w := WithHardness(d.v, memory, limits);
        var a := Acquired(console, limits.longestPassphrase);
        && Run(argv, events, operands, limits, memory, console) ==
             (if !NeedsPassphrase(w) then Ready(w) else if a.None? then Unable else Ready(w.(passphrase := a)))
        && LflagAfterRun(saved, argv, events, operands, limits, memory, console) ==
             (if NeedsPassphrase(w) && console.kind == Tty then LflagAfterPrompt(saved, console) else saved)
  {
  }

  /** `parse_arguments_and_get_passphrase`. The scanner's output is given:
      `events` are the options in order and `operands` the words it leaves at
      `argv[optind..]`, the subcommand keyword among them. Host memory, the
      build constants, standard input and its terminal are parameters. */
  method ParseArgumentsAndGetPassphrase(argv: seq<string>, events: seq<OptionEvent>, operands: seq<string>,
                                        limits: Limits, memory: nat, console: Console, term: Terminal)
    returns (r: Outcome, ghost discarded: array?<char>)
    requires |argv| >= 2 ==> |operands| < |argv|
    requires forall i :: 0 <= i < |events| ==> ArgumentIsCString(events[i])
    requires limits.longestPassphrase >= 2
    modifies term
    ensures var verdict := Run(argv, events, operands, limits, memory, console);
      && (r.BadInvocation? <==> verdict.Rejected?)
      && (r.UnableToGetPassphrase? <==> verdict.Unable?)
      && (r.Accepted? <==> verdict.Ready?)
      && (r.Accepted? ==> fresh(r.state) && r.state.Valid() && r.state.Value() == verdict.v)
    ensures r.Accepted? && r.state.passphrase != null ==>
      fresh(r.state.passphrase) && r.state.passphrase.Length <= limits.longestPassphrase + 1
    ensures term.lflag == LflagAfterRun(old(term.lflag), argv, events, operands, limits, memory, console)
    ensures (r.BadInvocation? && |argv| >= 2 && MatchKeyword(argv[1]).Some? &&
             Fold(Initial(MatchKeyword(argv[1]).value), events, limits.longestPassphrase).passphrase.Some?) ==>
        var n := |Fold(Initial(MatchKeyword(argv[1]).value), events, limits.longestPassphrase).passphrase.value|;
        discarded != null && n < discarded.Length && CStr(discarded[..]) == [] &&
        forall i :: 0 <= i <= n ==> discarded[i] == NUL
  {
    var longest := limits.longestPassphrase;
    discarded := null;
    if |argv| < 2 {
      return BadInvocation, discarded;
    }
    var sub: Subcommand;
    match MatchKeyword(argv[1]) {
      case None => return BadInvocation, discarded;
      case Some(s) => sub := s;
    }
    var state, invalid := ScanOptions(sub, events, longest);

    // The re-detection of a missing subcommand, and the leftover operands.
    var optind := |argv| - |operands|;
    assert state.subcommand != Unknown;
    ghost var known := state.subcommand;
    state.subcommand := FallbackSubcommand(state.subcommand, operands);
    assert state.subcommand == known;
    optind := optind + if state.subcommand == Unknown then 0 else 1;
    var extraArgs := |argv| - optind;
    if extraArgs > 0 {
      invalid := true;
    }

    // The compatibility table; Help is never rejected.
    ghost var parsed := state.Value();
    assert parsed == Fold(Initial(sub), events, longest);
    assert invalid == (UnknownOpt in events || |operands| > 1);
    DecideAfterScan(argv, events, operands, longest, sub, parsed);
    RunAfterDecide(old(term.lflag), argv, events, operands, limits, memory, console);
    var ok: bool;
    invalid := invalid || !MeetsTable(state.Value());
    if state.subcommand != Help && invalid {
      // The rejected record is freed, and its passphrase zeroed, before the exit.
      discarded := state.passphrase;
      FreeInvocation(state);
      return BadInvocation, discarded;
    }

    ok := CompleteInvocation(state, limits, memory, console, term);
    if !ok {
      return UnableToGetPassphrase, discarded;
    }
    return Accepted(state), discarded;
  }

  /** An accepted Enrol has its device and file, no mixin, a passphrase, and
      one of the three hardness tiers. */
  lemma ReadyEnrolIsComplete(argv: seq<string>, events: seq<OptionEvent>, operands: seq<string>,
                             limits: Limits, memory: nat, console: Console)
    requires limits.longestPassphrase >= 2
    requires Run(argv, events, operands, limits, memory, console).Ready?
    requires Run(argv, events, operands, limits, memory, console).v.subcommand == Enrol
    ensures var v := Run(argv, events, operands, limits, memory, console).v;
      v.device.Some? && v.file.Some? && v.mixin.None? && v.passphrase.Some? &&
      (v.kdfHardness == Low || v.kdfHardness == Medium || v.kdfHardness == High)
  {
    var d := Decide(argv, events, operands, limits.longestPassphrase);
    EnrolHasTier(d.v, memory, limits);
  }

  /** An accepted Generate has its file and a passphrase, and no device,
      obfuscation or hardness. */
  lemma ReadyGenerateIsComplete(argv: seq<string>, events: seq<OptionEvent>, operands: seq<string>,
                                limits: Limits, memory: nat, console: Console)
    requires limits.longestPassphrase >= 2
    requires Run(argv, events, operands, limits, memory, console).Ready?
    requires Run(argv, events, operands, limits, memory, console).v.subcommand == Generate
    ensures var v := Run(argv, events, operands, limits, memory, console).v;
      v.file.Some? && v.device.None? && v.passphrase.Some? &&
      !v.obfuscateDeviceInfo && v.kdfHardness == Unspecified
  {
  }

  /** An accepted Enumerate or Version carries nothing but its subcommand. */
  lemma ReadyQueriesAreBare(argv: seq<string>, events: seq<OptionEvent>, operands: seq<string>,
                            limits: Limits, memory: nat, console: Console)
    requires limits.longestPassphrase >= 2
    requires Run(argv, events, operands, limits, memory, console).Ready?
    requires Run(argv, events, operands, limits, memory, console).v.subcommand in {Enumerate, Version}
    ensures Run(argv, events, operands, limits, memory, console).v ==
      Initial(Run(argv, events, operands, limits, memory, console).v.subcommand)
  {
  }

  /** Every passphrase the front end hands on fits its buffer: a `-p` value
      is cut to LONGEST_VALID_PASSPHRASE characters and a read one to one fewer. */
  lemma PassphraseIsBounded(argv: seq<string>, events: seq<OptionEvent>, operands: seq<string>,
                            limits: Limits, memory: nat, console: Console)
    requires limits.longestPassphrase >= 2
    requires Run(argv, events, operands, limits, memory, console).Ready?
    requires Run(argv, events, operands, limits, memory, console).v.passphrase.Some?
    ensures |Run(argv, events, operands, limits, memory, console).v.passphrase.value| <= limits.longestPassphrase
  {
    var d := Decide(argv, events, operands, limits.longestPassphrase);
    FoldLastWriterWins(Initial(MatchKeyword(argv[1]).value), events, limits.longestPassphrase);
    if NeedsPassphrase(WithHardness(d.v, memory, limits)) {
    } else {
      assert d.v.passphrase.Some?;
      var p := LastPayload(events, PassphraseField);
      assert p.Some?;
    }
  }

  /** A hardness given with `-k` is never replaced by the resolver. */
  lemma GivenHardnessIsKept(argv: seq<string>, events: seq<OptionEvent>, operands: seq<string>,
                            limits: Limits, memory: nat, console: Console)
    requires limits.longestPassphrase >= 2
    requires Run(argv, events, operands, limits, memory, console).Ready?
    requires LastPayload(events, KdfField).Some?
    ensures Run(argv, events, operands, limits, memory, console).v.kdfHardness ==
      KdfFromArg(LastPayload(events, KdfField).value)
  {
    FoldLastWriterWins(Initial(MatchKeyword(argv[1]).value), events, limits.longestPassphrase);
  }

  /** Without `-k`, an accepted Enrol gets the tier the memory rule picks. */
  lemma MissingHardnessIsResolved(argv: seq<string>, events: seq<OptionEvent>, operands: seq<string>,
                                  limits: Limits, memory: nat, console: Console)
    requires limits.longestPassphrase >= 2
    requires Run(argv, events, operands, limits, memory, console).Ready?
    requires Run(argv, events, operands, limits, memory, console).v.subcommand == Enrol
    requires LastPayload(events, KdfField).None?
    ensures Run(argv, events, operands, limits, memory, console).v.kdfHardness ==
      ResolveHardness(memory, limits.memlimitSensitive, limits.memlimitModerate)
  {
    FoldLastWriterWins(Initial(MatchKeyword(argv[1]).value), events, limits.longestPassphrase);
  }

  /** Standard input is consulted only when a passphrase is needed: when `-p`
      gave one, or the subcommand is neither Enrol nor Generate, two different
      consoles lead to the same verdict and the terminal is untouched. */
  lemma NoReadUnlessNeeded(argv: seq<string>, events: seq<OptionEvent>, operands: seq<string>,
                           limits: Limits, memory: nat, c1: Console, c2: Console, saved: bv32)
    requires limits.longestPassphrase >= 2
    requires Decide(argv, events, operands, limits.longestPassphrase).Proceed?
    requires var v := Decide(argv, events, operands, limits.longestPassphrase).v;
      v.passphrase.Some? || (v.subcommand != Enrol && v.subcommand != Generate)
    ensures Run(argv, events, operands, limits, memory, c1) == Run(argv, events, operands, limits, memory, c2)
    ensures LflagAfterRun(saved, argv, events, operands, limits, memory, c1) == saved
  {
  }
}
