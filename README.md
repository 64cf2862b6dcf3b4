# Invocation front end of fido2-hmac-secret, in Dafny

This project models the command-line front end of fido2-hmac-secret,
`src/invocation.c`. The front end has two functions.

`parse_arguments_and_get_passphrase`:

- recognises the subcommand keyword in `argv[1]` (help, version, enrol, generate, enumerate);
- folds the scanned options into one mutable `invocation_state_t`, last writer wins;
- rejects unknown options, leftover operands, and field combinations that the
  per-subcommand table forbids (a Help invocation is never rejected);
- for an Enrol without `-k`, picks a KDF hardness tier from host memory;
- for an Enrol or Generate without `-p`, reads the passphrase from standard input.
  On a terminal, echo is switched off while the user types.

`free_invocation` zeroes the passphrase before releasing the record.

The files:

- `types.dfy` holds the subcommand and hardness enumerations, the record's
  value (`Invocation`) and the build constants (`Limits`).
- `cstrings.dfy` holds the C string primitives used on character buffers:
  `strlen`, `strndup`, `fgets`, `sodium_memzero`.
- `parser.dfy` holds:
  - the keyword match;
  - the `-k` letter map;
  - the option fold as a pure specification;
  - the compatibility table;
  - `Decide`, the parser's verdict, and the properties of that verdict.
- `hardness.dfy` holds the memory thresholds.
- `secret_acquisition.dfy` holds:
  - the terminal (`c_lflag` as a `bv32`, in a class that the prompt updates);
  - the bounded line read into the passphrase buffer;
  - the in-place newline strip.
- `invocation.dfy` holds:
  - the `InvocationState` class, whose methods update its fields;
  - the imperative `ParseArgumentsAndGetPassphrase`, proved equal to the pure
    `Run`, plus lemmas about `Run`;
  - `FreeInvocation`, which zeroes the passphrase in place.

The option scanner (`getopt_long`) is an input here. It is given as:

- the sequence of option events it reports, in order;
- the operands it leaves at `argv[optind..]`, the subcommand keyword among them.

The number of extra arguments is then `|operands| - 1`.

The model follows the code as written. Where the code's behaviour differs from
the front end's intended design, the model keeps the code's behaviour:

- On the non-terminal branch the trailing newline is kept. `NewlineKeptOnlyOffTerminal`
  shows that `echo secret | prog ...` yields `"secret\n"`, but typing `secret` at the prompt
  yields `"secret"`.
- When the read at the prompt fails, the process exits with echo still off
  (`FailedReadLeavesEchoOff`). The restore runs only after a successful read (invocation.c:219-237).
- `free_invocation` does not clear the pointers it frees. Calling it twice is
  not safe, and the model makes no claim about a second call.
- On the unable-to-get-passphrase exits the buffer is not zeroed.
- The positional re-detection of a missing subcommand recognises only help, enrol and
  generate. The model keeps this in `FallbackSubcommand`. The parse method proves that the
  block never changes anything, because the subcommand is always known by then.
- A `-p` value is cut to LONGEST_VALID_PASSPHRASE characters. A passphrase read from
  standard input is cut to one character fewer, since `fgets` is given the size
  LONGEST_VALID_PASSPHRASE and not the buffer's size (`PassphraseIsBounded`, `ReadLine`).
- The hardness tier is monotone in memory for any two memory limits. The order of
  the limits decides only whether Medium can be chosen (`MediumReachableIff`).

## Model

| member | source | states |
|---|---|---|
| CStrings.CLen | src/invocation.c:259 | `strlen`: the result is the position of the first NUL (every earlier character is non-NUL, and the character at the result is NUL unless the buffer has none) |
| CStrings.CStr | src/invocation.c:227 | the string a buffer holds is a NUL-free prefix of it, followed by a NUL when shorter than the buffer |
| CStrings.CStrOfString | src/invocation.c:82-86 | a NUL-free string stored with a terminator reads back as itself, whatever follows |
| CStrings.CLenAfterCut | src/invocation.c:229 | writing NUL inside the string cuts its length to that position |
| CStrings.Truncated | src/invocation.c:82-86 | the `strndup` bound: a prefix of the argument, at most n characters, the whole argument when it fits |
| CStrings.Strndup | src/invocation.c:83-85 | `strndup`: a fresh buffer of at most n + 1 characters holding the truncated argument and a terminator |
| CStrings.FgetsLine | src/invocation.c:219 | the characters `fgets` stores: a prefix of the input, at most size - 1 long, with a newline only at the end, and stopping short of the bound only after a newline |
| CStrings.Fgets | src/invocation.c:219-224 | `fgets`: NULL exactly on a read error or on end of file before any character; otherwise the buffer holds the line, a NUL, and its old contents after that; nothing is written at or past index `size` |
| CStrings.MemZero | src/invocation.c:259 | `sodium_memzero`: the first n characters become NUL and the rest are unchanged |
| CStrings.Scrubbed | src/invocation.c:259 | definition of the buffer after `sodium_memzero(buf, strlen(buf))`; properties in `CStrings.ScrubbedErasesString` and `CStrings.ScrubbedClearsWholeSecret` |
| CStrings.ScrubbedErasesString | src/invocation.c:258-261 | zeroing up to `strlen` keeps the buffer size, zeroes every character of the string, leaves the bytes from the terminator on unchanged, and leaves the empty string |
| CStrings.ScrubbedZeroesTerminated | src/invocation.c:258-261 | in a buffer that holds a terminator, scrubbing zeroes every byte up to and including the first NUL, leaving the empty string |
| CStrings.ScrubbedClearsWholeSecret | src/invocation.c:258-261 | for a buffer holding a NUL-free passphrase and its terminator, every byte up to the terminator is zero afterwards |
| Parser.MatchKeyword | src/invocation.c:32-45 | `argv[1]` selects a subcommand only when it is exactly that subcommand's keyword; otherwise no subcommand, and never Unknown |
| Parser.KeywordRoundTrip | src/invocation.c:32-45 | each of the five keywords selects its own subcommand |
| Parser.FallbackSubcommand | src/invocation.c:124-132 | the re-detection changes nothing once a subcommand is known, never produces Unknown from a known subcommand, and never produces Version or Enumerate |
| Parser.KdfFromArg | src/invocation.c:93-108 | `-k` gives Low, Medium or High exactly when its first letter is l/L, m/M or h/H; anything else, the empty argument included, gives Invalid; never Unspecified |
| Parser.Initial | src/invocation.c:23-30 | definition of the freshly allocated record with only the subcommand set; properties in `Parser.FoldLastWriterWins` and `Invocation.ReadyQueriesAreBare` |
| Parser.Apply | src/invocation.c:71-121 | definition of one turn of the option switch; properties in `Parser.FoldLastWriterWins` |
| Parser.Fold | src/invocation.c:47-122 | definition of the option loop as the options applied in order; properties in `Parser.FoldLastWriterWins`, `Parser.FoldPaths`, `Parser.FoldSecrets`, `Parser.FoldFlags` and `Parser.LaterKdfOverrides` |
| Parser.LastPayloadIsLast | src/invocation.c:47-122 | the last option that sets a field is one that no later option overrides; there is none exactly when no option sets the field |
| Parser.FoldLastWriterWins | src/invocation.c:47-122 | after the option loop, each field holds the value of the last option that set it, or its initial value; a `-p` value is truncated; obfuscation and `-h` are sticky |
| Parser.FoldPaths | src/invocation.c:72-91 | last writer wins for device, file and mixin |
| Parser.FoldSecrets | src/invocation.c:82-108 | last writer wins for the truncated passphrase and for the hardness of the last `-k` |
| Parser.FoldFlags | src/invocation.c:110-116 | obfuscation is set when any `-o` appears; the subcommand is Help when any `-h` appears, otherwise the keyword's |
| Parser.LaterKdfOverrides | src/invocation.c:93-108 | a `-k` that no later `-k` follows decides the hardness, whatever came before |
| Parser.MeetsTable | src/invocation.c:157-179 | definition of the compatibility table; properties in `Parser.ProceedsIff` and `Parser.ProceedingInvocationsMeetTable` |
| Parser.Decide | src/invocation.c:17-185 | a proceeding invocation has a second argument that is a keyword, and a known subcommand; outside Help it meets the table, has no unknown option and no extra operand |
| Parser.NoKeywordIsBadInvocation | src/invocation.c:18-45 | with fewer than two arguments, or an `argv[1]` that is not exactly a keyword, the invocation is bad |
| Parser.SubcommandOfDecision | src/invocation.c:32-116 | the subcommand decided is Help when `-h` was given, and otherwise the keyword's |
| Parser.HelpIsNeverRejected | src/invocation.c:114-185 | Help, by keyword or by `-h`, proceeds whatever else was given |
| Parser.GrammarErrorsAreBadInvocations | src/invocation.c:118-154 | outside Help, an unknown option or an operand besides the keyword makes the invocation bad |
| Parser.ProceedsIff | src/invocation.c:136-185 | outside Help, with a valid keyword, the invocation proceeds exactly when no option is unknown, no operand is left over and the table holds for the folded record |
| Parser.ProceedingInvocationsMeetTable | src/invocation.c:157-179 | the rows of the table: Enrol has device and file, no mixin, hardness not Invalid; Generate has file, no device, no obfuscation, hardness Unspecified; Enumerate and Version have no device, file, mixin or passphrase, no obfuscation, hardness Unspecified |
| Parser.ExampleEnrolWithHardness | src/invocation.c:17-185 | `prog enrol -d /dev/sdX -f keyfile -k h` proceeds as Enrol with that device and file and High hardness |
| Parser.ExampleGenerateWithDevice | src/invocation.c:163-168 | `prog generate -f out.key -d /dev/sdX` is bad |
| Parser.ExampleEnrolWithoutDevice | src/invocation.c:158-161 | `prog enrol -f keyfile` is bad |
| Hardness.ResolveHardness | src/invocation.c:192-198 | the tier is High exactly above twice the sensitive limit, Medium exactly above twice the moderate limit and up to twice the sensitive one, and Low otherwise |
| Hardness.ResolveIsMonotone | src/invocation.c:192-198 | more memory never gives a lower tier, for any two limits |
| Hardness.MediumReachableIff | src/invocation.c:192-198 | some memory size gives Medium exactly when the moderate limit is below the sensitive one |
| Hardness.WithHardness | src/invocation.c:187-199 | resolution changes only the hardness; an Enrol with no hardness gets `ResolveHardness` of the host memory against the two limits; a record that is not Enrol, or has a hardness already, is left unchanged |
| Hardness.EnrolHasTier | src/invocation.c:187-199 | an Enrol whose hardness is not Invalid has Low, Medium or High afterwards |
| SecretAcquisition.PromptFlags | src/invocation.c:212-214 | while prompting, ECHO, ECHOE and ECHOK are clear, ECHONL is set, and every other bit is as saved |
| SecretAcquisition.ReadLine | src/invocation.c:219-224 | a read passphrase has at most LONGEST_VALID_PASSPHRASE - 1 characters and no NUL |
| SecretAcquisition.StripNewline | src/invocation.c:226-230 | definition of the newline strip on the string; properties in `SecretAcquisition.StripNewlineRemovesOne` |
| SecretAcquisition.StripNewlineRemovesOne | src/invocation.c:226-230 | the strip removes exactly one trailing newline and changes a string that does not end in one not at all |
| SecretAcquisition.Acquired | src/invocation.c:201-248 | a passphrase is obtained exactly when the read succeeds, on a non-terminal (ENOTTY), or on a terminal whose three attribute calls succeed; it fits the buffer |
| SecretAcquisition.AcquiredNewlines | src/invocation.c:226-244 | a passphrase typed at a terminal contains no newline; one read from elsewhere is the line exactly as read |
| SecretAcquisition.NewlineKeptOnlyOffTerminal | src/invocation.c:207-244 | the same input line `secret\n` gives `secret\n` from a pipe and `secret` from the terminal |
| SecretAcquisition.LflagAfterPrompt | src/invocation.c:207-237 | definition of `c_lflag` once a prompt has ended; properties in `SecretAcquisition.PromptRestoresTerminal` and `SecretAcquisition.FailedReadLeavesEchoOff` |
| SecretAcquisition.PromptRestoresTerminal | src/invocation.c:232-237 | after a successful prompt, `c_lflag` is back to its saved value |
| SecretAcquisition.FailedReadLeavesEchoOff | src/invocation.c:219-224 | when the read at the prompt fails, the process ends with ECHO clear and ECHONL set |
| SecretAcquisition.StripTrailingNewline | src/invocation.c:226-230 | in place: the buffer's string loses one trailing newline (an empty string is left alone); only that character is overwritten |
| SecretAcquisition.ReadLineInto | src/invocation.c:239-244 | one bounded read into the LONGEST_VALID_PASSPHRASE + 1 buffer; it fails exactly when `fgets` returns NULL; otherwise the buffer holds the line read as a terminated C string |
| SecretAcquisition.PromptOnTerminal | src/invocation.c:207-237 | the terminal branch stores the stripped line exactly when every step succeeds, and leaves `c_lflag` as `LflagAfterPrompt` says |
| SecretAcquisition.ReadPassphraseInto | src/invocation.c:207-247 | the acquisition stores `Acquired`'s passphrase exactly when that exists; only the terminal branch touches `c_lflag` |
| Invocation.InvocationState.constructor | src/invocation.c:23-30 | a fresh record with only the subcommand set and no passphrase buffer |
| Invocation.InvocationState.ApplyOption | src/invocation.c:71-121 | one option overwrites its field as `Apply` says; a `-p` value is put in a fresh buffer of at most LONGEST_VALID_PASSPHRASE + 1 characters; an unknown option changes nothing and is reported |
| Invocation.ScanOptions | src/invocation.c:47-122 | the option loop leaves a fresh record holding the fold of the options over the keyword's record, and reports whether any option was unknown |
| Invocation.CompleteInvocation | src/invocation.c:187-248 | after the table, the record holds the resolved hardness and, when it needs one, the acquired passphrase; it fails exactly when the acquisition does; only a prompt changes `c_lflag` |
| Invocation.FreeInvocation | src/invocation.c:253-276 | NULL changes nothing; otherwise exactly the passphrase buffer changes, to its scrubbed form, in which every byte of the passphrase and its terminator is zero and the buffer holds the empty string |
| Invocation.NeedsPassphrase | src/invocation.c:201-203 | definition of when standard input is read; properties in `Invocation.NoReadUnlessNeeded` |
| Invocation.Run | src/invocation.c:17-251 | definition of the whole front end as a function of its inputs; properties in `Invocation.ReadyEnrolIsComplete`, `Invocation.ReadyGenerateIsComplete`, `Invocation.ReadyQueriesAreBare`, `Invocation.PassphraseIsBounded`, `Invocation.GivenHardnessIsKept`, `Invocation.MissingHardnessIsResolved` and `Invocation.NoReadUnlessNeeded` |
| Invocation.LflagAfterRun | src/invocation.c:17-251 | definition of `c_lflag` after the front end; properties in `Invocation.NoReadUnlessNeeded`, and through `LflagAfterPrompt` in `SecretAcquisition.PromptRestoresTerminal` and `SecretAcquisition.FailedReadLeavesEchoOff` |
| Invocation.ParseArgumentsAndGetPassphrase | src/invocation.c:17-251 | the method ends as `Run` says: bad invocation, unable to get a passphrase, or a fresh valid record holding `Run`'s value with a passphrase buffer of at most LONGEST_VALID_PASSPHRASE + 1 characters; `c_lflag` ends as `LflagAfterRun` says; a rejected invocation that carried a `-p` passphrase leaves that buffer zeroed through its terminator (the `free_invocation` before the exit at line 182) |
| Invocation.ReadyEnrolIsComplete | src/invocation.c:157-205 | an accepted Enrol has device, file, a passphrase, no mixin, and one of Low, Medium, High |
| Invocation.ReadyGenerateIsComplete | src/invocation.c:163-205 | an accepted Generate has file and a passphrase, no device, no obfuscation, hardness Unspecified |
| Invocation.ReadyQueriesAreBare | src/invocation.c:169-178 | an accepted Enumerate or Version record has no field set but its subcommand |
| Invocation.PassphraseIsBounded | src/invocation.c:82-248 | every passphrase of an accepted record has at most LONGEST_VALID_PASSPHRASE characters |
| Invocation.GivenHardnessIsKept | src/invocation.c:187-188 | a hardness given with `-k` is the one accepted; the resolver never replaces it |
| Invocation.MissingHardnessIsResolved | src/invocation.c:187-199 | an accepted Enrol without `-k` has exactly the tier the memory rule picks for the host memory |
| Invocation.NoReadUnlessNeeded | src/invocation.c:201-203 | when `-p` gave a passphrase or the subcommand is neither Enrol nor Generate, standard input does not affect the result and the terminal is untouched |

## Left out

- The internals of `getopt_long` are not modelled: argument permutation, bundled short
  options, `--opt=value`, abbreviated long options, the `--` terminator, and the globals
  `optind` and `optarg`. The scanner's output (option events and the operands left at
  `argv[optind..]`) is an input. `LOWERCASE` on the scanner's return value (line 71)
  has no observable effect.
- `LOWERCASE` is defined outside this file. It is modelled as ASCII lower-casing. For the
  letters l, m and h, this agrees with `tolower` and with `c | 0x20`.
- `print_usage`, the messages on stderr, and `err`/`errx`/`exit` are not modelled.
  Each exit becomes a returned `Outcome`. The listing of unrecognised arguments is not modelled.
- The allocation failures of `malloc_or_exit` and `strdup_or_exit` are out of scope.
- `sysconf` is not called: available memory is a parameter. The possible overflow of
  `pages * page_size` is not modelled.
- The libsodium memory limits and LONGEST_VALID_PASSPHRASE are defined outside this file.
  They are parameters (`Limits`), with LONGEST_VALID_PASSPHRASE at least 2.
- `isatty`, `tcgetattr` and `tcsetattr` are not modelled. Which branch is taken, and which
  call fails, are inputs (`Console`). A failing `tcsetattr` is taken to change nothing.
  The termios bits use their Linux values.
- The guarantee of `sodium_memzero` against compiler elision is not modelled: it is a plain zeroing loop.
- Deallocation has no counterpart in Dafny. `FreeInvocation` models the zeroing, and
  dropping the record stands for `free`. Calling it twice is not claimed to be safe.
- The passphrase strip guards the case of an empty line read (a line that starts with
  NUL). In the code, `strlen(...) - 1` would underflow there (line 227). The model leaves
  the buffer alone.
- When an option is repeated, the earlier `strdup`/`strndup` buffer is dropped without
  being freed, and an earlier `-p` buffer without being zeroed. The model drops the
  earlier array in the same way, but states nothing about the lost buffer.
- A line read from standard input may hold a NUL byte. In that case `strlen`, and so the
  zeroing in `free_invocation`, stops at that byte. The model keeps this behaviour:
  `ScrubbedErasesString` zeroes only up to the first NUL.
- Strings are sequences of `char`, and one `char` stands for one byte. `strndup` (line 84)
  and `fgets` (line 219) count bytes, so for a multi-byte UTF-8 passphrase the model is exact
  only under that reading; the model does no encoding.
- CStrings.Fgets: requires a size of at least 2, the only size the front end passes. Real
  `fgets` at size 1 stores the empty string and succeeds even at end of file; that case is not
  modelled. After a failed read the buffer's contents are not specified, as in C.
