/** The invocation parser and validator of `parse_arguments_and_get_passphrase`:
    subcommand keyword, option folding, leftover operands and the
    per-subcommand compatibility table. The option scanner itself is not
    modelled: its output is given as a sequence of option events and the
    operands it leaves at the end of the argument vector. */
module Parser {
  import opened Types
  import opened CStrings

  /** One option as reported by the scanner, with its argument where it takes one. */
  datatype OptionEvent =
    | DeviceOpt(path: string)      // -d, --device
    | FileOpt(path: string)        // -f, --file
    | PassphraseOpt(value: string) // -p, --passphrase
    | MixinOpt(data: string)       // -m, --mixin
    | KdfOpt(arg: string)          // -k, --kdf-hardness
    | ObfuscateOpt                 // -o, --obfuscate-device
    | HelpOpt                      // -h, --help
    | UnknownOpt                   // anything the scanner does not recognise

  /** Option arguments come from the argument vector, so they are C strings. */
  predicate ArgumentIsCString(e: OptionEvent)
  {
    match e
    case DeviceOpt(p) => NoNul(p)
    case FileOpt(p) => NoNul(p)
    case PassphraseOpt(v) => NoNul(v)
    case MixinOpt(m) => NoNul(m)
    case KdfOpt(a) => NoNul(a)
    case _ => true
  }

  /** The word that names a subcommand on the command line. */
  function Keyword(s: Subcommand): string
    requires s != Unknown
  {
    match s
    case Help => "help"
    case Version => "version"
    case Enrol => "enrol"
    case Generate => "generate"
    case Enumerate => "enumerate"
  }

  /** The exact-match chain on `argv[1]`. */
  function MatchKeyword(word: string): (r: Option<Subcommand>)
    ensures r.Some? ==> r.value != Unknown && Keyword(r.value) == word
    ensures r.None? ==> forall s :: s != Unknown ==> Keyword(s) != word
  {
    if word == "help" then Some(Help)
    else if word == "version" then Some(Version)
    else if word == "enrol" then Some(Enrol)
    else if word == "generate" then Some(Generate)
    else if word == "enumerate" then Some(Enumerate)
    else None
  }

  /** Each keyword is recognised as its own subcommand. */
  lemma KeywordRoundTrip(s: Subcommand)
    requires s != Unknown
    ensures MatchKeyword(Keyword(s)) == Some(s)
  {
    match s
    case Help =>
    case Version => assert "version" != "help";
    case Enrol => assert "enrol" != "help" && "enrol" != "version";
    case Generate => assert "generate" != "help" && "generate" != "version" && "generate" != "enrol";
    case Enumerate =>
      assert "enumerate" != "help" && "enumerate" != "version" && "enumerate" != "enrol";
      assert "enumerate" != "generate";
  }

  /** The re-detection of the subcommand from the first leftover operand, run
      when no subcommand is known yet: it recognises only help, enrol and
      generate. */
  function FallbackSubcommand(sub: Subcommand, operands: seq<string>): (r: Subcommand)
    ensures sub != Unknown ==> r == sub
    ensures r == Unknown ==> sub == Unknown
    ensures r == Version || r == Enumerate ==> r == sub
  {
    if sub == Unknown && |operands| > 0 then
      if operands[0] == "help" then Help
      else if operands[0] == "enrol" then Enrol
      else if operands[0] == "generate" then Generate
      else sub
    else sub
  }

  /** ASCII lower-casing, the `LOWERCASE` applied to the first letter of `-k`. */
  function LowerAscii(c: char): char
  {
    if 'A' <= c <= 'Z' then (c as int + 32) as char else c
  }

  /** The hardness a `-k` argument selects, from its first letter in either case. */
  function KdfFromArg(arg: string): (h: KdfHardness)
    ensures h == Low <==> |arg| > 0 && (arg[0] == 'l' || arg[0] == 'L')
    ensures h == Medium <==> |arg| > 0 && (arg[0] == 'm' || arg[0] == 'M')
    ensures h == High <==> |arg| > 0 && (arg[0] == 'h' || arg[0] == 'H')
    ensures h != Unspecified
  {
    if |arg| == 0 then Invalid
    else
      match LowerAscii(arg[0])
      case 'l' => Low
      case 'm' => Medium
      case 'h' => High
      case _ => Invalid
  }

  /** The record as freshly allocated, once the subcommand is known. */
  function Initial(sub: Subcommand): Invocation
  {
    Invocation(sub, None, None, None, None, false, Unspecified)
  }

  /** The effect of one option on the record (an unknown option leaves it as it is). */
  function Apply(v: Invocation, e: OptionEvent, longest: nat): Invocation
  {
    match e
    case DeviceOpt(p) => v.(device := Some(p))
    case FileOpt(p) => v.(file := Some(p))
    case PassphraseOpt(s) => v.(passphrase := Some(Truncated(s, longest)))
    case MixinOpt(m) => v.(mixin := Some(m))
    case KdfOpt(a) => v.(kdfHardness := KdfFromArg(a))
    case ObfuscateOpt => v.(obfuscateDeviceInfo := true)
    case HelpOpt => v.(subcommand := Help)
    case UnknownOpt => v
  }

  /** The record after the options `evs`, applied in order. */
  function Fold(v: Invocation, evs: seq<OptionEvent>, longest: nat): Invocation
    decreases |evs|
  {
    if evs == [] then v
    else Apply(Fold(v, evs[..|evs| - 1], longest), evs[|evs| - 1], longest)
  }

  /** The record fields an option can carry a string for. */
  datatype Field = DeviceField | FileField | PassphraseField | MixinField | KdfField

  function Payload(e: OptionEvent, f: Field): Option<string>
  {
    match (e, f)
    case (DeviceOpt(p), DeviceField) => Some(p)
    case (FileOpt(p), FileField) => Some(p)
    case (PassphraseOpt(s), PassphraseField) => Some(s)
    case (MixinOpt(m), MixinField) => Some(m)
    case (KdfOpt(a), KdfField) => Some(a)
    case _ => None
  }

  /** The argument of the last option in `evs` that sets field `f`. */
  function LastPayload(evs: seq<OptionEvent>, f: Field): Option<string>
    decreases |evs|
  {
    if evs == [] then None
    else if Payload(evs[|evs| - 1], f).Some? then Payload(evs[|evs| - 1], f)
    else LastPayload(evs[..|evs| - 1], f)
  }

  /** LastPayload is the argument of an option at some position `i` that no
      later option overrides, and it is None exactly when no option sets `f`. */
  lemma LastPayloadIsLast(evs: seq<OptionEvent>, f: Field)
    ensures LastPayload(evs, f).None? <==> forall j :: 0 <= j < |evs| ==> Payload(evs[j], f).None?
    ensures LastPayload(evs, f).Some? ==>
      exists i :: 0 <= i < |evs| && Payload(evs[i], f) == LastPayload(evs, f) &&
        forall j :: i < j < |evs| ==> Payload(evs[j], f).None?
  {
    LastPayloadNone(evs, f);
    if LastPayload(evs, f).Some? {
      var i := LastPayloadWitness(evs, f);
    }
  }

  lemma {:induction false} LastPayloadNone(evs: seq<OptionEvent>, f: Field)
    ensures LastPayload(evs, f).None? <==> forall j :: 0 <= j < |evs| ==> Payload(evs[j], f).None?
    decreases |evs|
  {
    if evs != [] {
      var n := |evs| - 1;
      LastPayloadNone(evs[..n], f);
      assert forall j :: 0 <= j < n ==> evs[..n][j] == evs[j];
    }
  }

  lemma {:induction false} LastPayloadWitness(evs: seq<OptionEvent>, f: Field) returns (i: nat)
    requires LastPayload(evs, f).Some?
    ensures i < |evs| && Payload(evs[i], f) == LastPayload(evs, f)
    ensures forall j :: i < j < |evs| ==> Payload(evs[j], f).None?
    decreases |evs|
  {
    var n := |evs| - 1;
    if Payload(evs[n], f).Some? {
      i := n;
    } else {
      var init := evs[..n];
      i := LastPayloadWitness(init, f);
      assert init[i] == evs[i];
    }
  }

  function Overridden(before: Option<string>, last: Option<string>): Option<string>
  {
    if last.Some? then last else before
  }

  /** Last writer wins: each field of the record after the options is what
      the last option setting it wrote, or what it was before when no option
      sets it; the obfuscation flag and the Help subcommand are sticky. */
  lemma FoldLastWriterWins(v: Invocation, evs: seq<OptionEvent>, longest: nat)
    ensures Fold(v, evs, longest).device == Overridden(v.device, LastPayload(evs, DeviceField))
    ensures Fold(v, evs, longest).file == Overridden(v.file, LastPayload(evs, FileField))
    ensures Fold(v, evs, longest).mixin == Overridden(v.mixin, LastPayload(evs, MixinField))
    ensures Fold(v, evs, longest).passphrase ==
      match LastPayload(evs, PassphraseField)
      case Some(s) => Some(Truncated(s, longest))
      case None => v.passphrase
    ensures Fold(v, evs, longest).kdfHardness ==
      match LastPayload(evs, KdfField)
      case Some(a) => KdfFromArg(a)
      case None => v.kdfHardness
    ensures Fold(v, evs, longest).obfuscateDeviceInfo == (v.obfuscateDeviceInfo || ObfuscateOpt in evs)
    ensures Fold(v, evs, longest).subcommand == if HelpOpt in evs then Help else v.subcommand
  {
    FoldPaths(v, evs, longest);
    FoldSecrets(v, evs, longest);
    FoldFlags(v, evs, longest);
  }

  lemma {:induction false} FoldPaths(v: Invocation, evs: seq<OptionEvent>, longest: nat)
    ensures Fold(v, evs, longest).device == Overridden(v.device, LastPayload(evs, DeviceField))
    ensures Fold(v, evs, longest).file == Overridden(v.file, LastPayload(evs, FileField))
    ensures Fold(v, evs, longest).mixin == Overridden(v.mixin, LastPayload(evs, MixinField))
    decreases |evs|
  {
    if evs != [] {
      FoldPaths(v, evs[..|evs| - 1], longest);
    }
  }

  lemma {:induction false} FoldSecrets(v: Invocation, evs: seq<OptionEvent>, longest: nat)
    ensures Fold(v, evs, longest).passphrase ==
      match LastPayload(evs, PassphraseField)
      case Some(s) => Some(Truncated(s, longest))
      case None => v.passphrase
    ensures Fold(v, evs, longest).kdfHardness ==
      match LastPayload(evs, KdfField)
      case Some(a) => KdfFromArg(a)
      case None => v.kdfHardness
    decreases |evs|
  {
    if evs != [] {
      FoldSecrets(v, evs[..|evs| - 1], longest);
    }
  }

  lemma {:induction false} FoldFlags(v: Invocation, evs: seq<OptionEvent>, longest: nat)
    ensures Fold(v, evs, longest).obfuscateDeviceInfo == (v.obfuscateDeviceInfo || ObfuscateOpt in evs)
    ensures Fold(v, evs, longest).subcommand == if HelpOpt in evs then Help else v.subcommand
    decreases |evs|
  {
    if evs != [] {
      var n := |evs| - 1;
      FoldFlags(v, evs[..n], longest);
      assert evs == evs[..n] + [evs[n]];
      assert ObfuscateOpt in evs <==> ObfuscateOpt in evs[..n] || evs[n] == ObfuscateOpt;
      assert HelpOpt in evs <==> HelpOpt in evs[..n] || evs[n] == HelpOpt;
    }
  }

  /** A `-k` given after every other `-k` decides the hardness, whatever came before. */
  lemma LaterKdfOverrides(v: Invocation, before: seq<OptionEvent>, arg: string, after: seq<OptionEvent>, longest: nat)
    requires forall j :: 0 <= j < |after| ==> !after[j].KdfOpt?
    ensures Fold(v, before + [KdfOpt(arg)] + after, longest).kdfHardness == KdfFromArg(arg)
  {
    var evs := before + [KdfOpt(arg)] + after;
    var k := |before|;
    FoldLastWriterWins(v, evs, longest);
    LastPayloadIsLast(evs, KdfField);
    assert Payload(evs[k], KdfField) == Some(arg);
    var i :| 0 <= i < |evs| && Payload(evs[i], KdfField) == LastPayload(evs, KdfField) &&
      forall j :: i < j < |evs| ==> Payload(evs[j], KdfField).None?;
    assert forall j :: k < j < |evs| ==> evs[j] == after[j - k - 1];
    assert i == k;
  }

  /** The per-subcommand compatibility table (Help, Version, Enumerate and
      Unknown share the last row). */
  predicate MeetsTable(v: Invocation)
  {
    match v.subcommand
    case Enrol =>
      v.device.Some? && v.file.Some? && v.mixin.None? && v.kdfHardness != Invalid
    case Generate =>
      v.device.None? && v.file.Some? && !v.obfuscateDeviceInfo && v.kdfHardness == Unspecified
    case _ =>
      v.device.None? && v.file.None? && v.mixin.None? && v.passphrase.None? &&
      !v.obfuscateDeviceInfo && v.kdfHardness == Unspecified
  }

  /** What the parser decides before hardness resolution and passphrase acquisition. */
  datatype Decision = Reject | Proceed(v: Invocation)

  /** The parser's decision for argument vector `argv` (program name first),
      scanned options `events`, and the operands the scanner leaves, the
      subcommand keyword among them. Help is never rejected; every other
      subcommand is rejected on an unknown option, on an operand besides the
      keyword, or on a violation of the table. */
  function Decide(argv: seq<string>, events: seq<OptionEvent>, operands: seq<string>, longest: nat): (d: Decision)
    ensures d.Proceed? ==> |argv| >= 2 && MatchKeyword(argv[1]).Some? && d.v.subcommand != Unknown
    ensures d.Proceed? && d.v.subcommand != Help ==>
      MeetsTable(d.v) && UnknownOpt !in events && |operands| <= 1
  {
    if |argv| < 2 then Reject
    else
      match MatchKeyword(argv[1])
      case None => Reject
      case Some(sub) =>
        var v := Fold(Initial(sub), events, longest);
        var invalid := UnknownOpt in events || |operands| - 1 > 0;
        if v.subcommand != Help && (invalid || !MeetsTable(v)) then Reject
        else Proceed(v)
  }

  /** Without a second argument, or with one that is not exactly a keyword, the invocation is bad. */
  lemma NoKeywordIsBadInvocation(argv: seq<string>, events: seq<OptionEvent>, operands: seq<string>, longest: nat)
    requires |argv| < 2 || forall s :: s != Unknown ==> Keyword(s) != argv[1]
    ensures Decide(argv, events, operands, longest) == Reject
  {
    if |argv| >= 2 {
      assert MatchKeyword(argv[1]).None?;
    }
  }

  /** The subcommand decided is the keyword's, unless `-h` forced Help. */
  lemma SubcommandOfDecision(argv: seq<string>, events: seq<OptionEvent>, operands: seq<string>, longest: nat)
    requires Decide(argv, events, operands, longest).Proceed?
    ensures Decide(argv, events, operands, longest).v.subcommand ==
      if HelpOpt in events then Help else MatchKeyword(argv[1]).value
  {
    FoldLastWriterWins(Initial(MatchKeyword(argv[1]).value), events, longest);
  }

  /** Help, asked for by keyword or by `-h`, is never rejected: not for unknown
      options, extra operands or forbidden fields. */
  lemma HelpIsNeverRejected(argv: seq<string>, events: seq<OptionEvent>, operands: seq<string>, longest: nat)
    requires |argv| >= 2 && MatchKeyword(argv[1]).Some?
    requires argv[1] == "help" || HelpOpt in events
    ensures Decide(argv, events, operands, longest).Proceed?
    ensures Decide(argv, events, operands, longest).v.subcommand == Help
  {
    FoldLastWriterWins(Initial(MatchKeyword(argv[1]).value), events, longest);
  }

  /** Outside Help, an unknown option or an operand besides the keyword makes the invocation bad. */
  lemma GrammarErrorsAreBadInvocations(argv: seq<string>, events: seq<OptionEvent>, operands: seq<string>, longest: nat)
    requires |argv| >= 2 && argv[1] != "help" && HelpOpt !in events
    requires UnknownOpt in events || |operands| > 1
    ensures Decide(argv, events, operands, longest) == Reject
  {
    if MatchKeyword(argv[1]).Some? {
      FoldLastWriterWins(Initial(MatchKeyword(argv[1]).value), events, longest);
    }
  }

  /** Outside Help, the invocation proceeds exactly when the keyword is known,
      every option is known, no operand is left over and the table holds. */
  lemma ProceedsIff(argv: seq<string>, events: seq<OptionEvent>, operands: seq<string>, longest: nat)
    requires |argv| >= 2 && MatchKeyword(argv[1]).Some?
    requires argv[1] != "help" && HelpOpt !in events
    ensures Decide(argv, events, operands, longest).Proceed? <==>
      UnknownOpt !in events && |operands| <= 1 &&
      MeetsTable(Fold(Initial(MatchKeyword(argv[1]).value), events, longest))
  {
    FoldLastWriterWins(Initial(MatchKeyword(argv[1]).value), events, longest);
  }

  /** The table, row by row, for every invocation that proceeds. */
  lemma ProceedingInvocationsMeetTable(argv: seq<string>, events: seq<OptionEvent>, operands: seq<string>, longest: nat)
    requires Decide(argv, events, operands, longest).Proceed?
    ensures var v := Decide(argv, events, operands, longest).v;
      && (v.subcommand == Enrol ==>
            v.device.Some? && v.file.Some? && v.mixin.None? && v.kdfHardness != Invalid)
      && (v.subcommand == Generate ==>
            v.file.Some? && v.device.None? && !v.obfuscateDeviceInfo && v.kdfHardness == Unspecified)
      && (v.subcommand == Enumerate || v.subcommand == Version ==>
            v.device.None? && v.file.None? && v.mixin.None? && v.passphrase.None? &&
            !v.obfuscateDeviceInfo && v.kdfHardness == Unspecified)
  {
  }

  /** `prog enrol -d /dev/sdX -f keyfile -k h` proceeds as Enrol with High hardness. */
  lemma ExampleEnrolWithHardness(longest: nat)
    ensures Decide(["prog", "enrol", "-d", "/dev/sdX", "-f", "keyfile", "-k", "h"],
                   [DeviceOpt("/dev/sdX"), FileOpt("keyfile"), KdfOpt("h")], ["enrol"], longest)
         == Proceed(Invocation(Enrol, Some("/dev/sdX"), Some("keyfile"), None, None, false, High))
  {
    assert MatchKeyword("enrol") == Some(Enrol) by { KeywordRoundTrip(Enrol); }
    var evs := [DeviceOpt("/dev/sdX"), FileOpt("keyfile"), KdfOpt("h")];
    var v0 := Initial(Enrol);
    assert evs[..2] == [DeviceOpt("/dev/sdX"), FileOpt("keyfile")];
    assert evs[..2][..1] == [DeviceOpt("/dev/sdX")];
    assert [DeviceOpt("/dev/sdX")][..0] == [];
    assert Fold(v0, evs[..2][..1], longest) == v0.(device := Some("/dev/sdX"));
    assert Fold(v0, evs[..2], longest) == v0.(device := Some("/dev/sdX"), file := Some("keyfile"));
  }

  /** `prog generate -f out.key -d /dev/sdX` is bad: Generate forbids a device. */
  lemma ExampleGenerateWithDevice(longest: nat)
    ensures Decide(["prog", "generate", "-f", "out.key", "-d", "/dev/sdX"],
                   [FileOpt("out.key"), DeviceOpt("/dev/sdX")], ["generate"], longest) == Reject
  {
    assert MatchKeyword("generate") == Some(Generate) by { KeywordRoundTrip(Generate); }
    var evs := [FileOpt("out.key"), DeviceOpt("/dev/sdX")];
    assert evs[..1] == [FileOpt("out.key")];
    assert [FileOpt("out.key")][..0] == [];
    assert Fold(Initial(Generate), evs, 0).device.Some?;
  }

  /** `prog enrol -f keyfile` is bad: Enrol needs a device. */
  lemma ExampleEnrolWithoutDevice(longest: nat)
    ensures Decide(["prog", "enrol", "-f", "keyfile"], [FileOpt("keyfile")], ["enrol"], longest) == Reject
  {
    assert MatchKeyword("enrol") == Some(Enrol) by { KeywordRoundTrip(Enrol); }
  }
}
