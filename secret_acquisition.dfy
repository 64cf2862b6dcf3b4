/** Secret acquisition: reading the passphrase from standard input, with echo
    switched off while a terminal is read from, into a buffer of
    LONGEST_VALID_PASSPHRASE + 1 characters. */
module SecretAcquisition {
  import opened Types
  import opened CStrings

  // Local-mode bits of `struct termios` (Linux values).
  const ECHO: bv32 := 0x8
  const ECHOE: bv32 := 0x10
  const ECHOK: bv32 := 0x20
  const ECHONL: bv32 := 0x40

  /** The echo bits the prompt clears. */
  const QUIET: bv32 := ECHO | ECHOE | ECHOK

  /** The local modes in force while the passphrase is typed: echo of
      characters, erase and kill off, echo of the newline on; every other bit
      as it was. */
  function PromptFlags(lflag: bv32): (r: bv32)
    ensures r & QUIET == 0
    ensures r & ECHONL == ECHONL
    ensures r & !(QUIET | ECHONL) == lflag & !(QUIET | ECHONL)
  {
    (lflag & !QUIET) | ECHONL
  }

  /** The terminal attached to standard input; `lflag` is its `c_lflag`. */
  class Terminal {
    var lflag: bv32

    constructor (lflag: bv32)
      ensures this.lflag == lflag
    {
      this.lflag := lflag;
    }
  }

  /** What `isatty` finds: a terminal, not a terminal (ENOTTY), or another error. */
  datatype StdinKind = Tty | NotTty | TtyCheckFailed

  /** Standard input as the acquisition sees it: its kind, which of the three
      terminal-attribute calls fail, the characters it holds before end of
      file, and whether reading it fails. */
  datatype Console = Console(
    kind: StdinKind,
    getAttrFails: bool,
    setAttrFails: bool,
    resetAttrFails: bool,
    input: seq<char>,
    readError: bool)

  /** `fgets` returns NULL: a read error, or end of file before any character. */
  predicate ReadFails(c: Console)
  {
    c.readError || c.input == []
  }

  /** The string one bounded `fgets` into the passphrase buffer leaves there:
      at most `longest - 1` characters. */
  function ReadLine(c: Console, longest: nat): (s: string)
    requires longest >= 1
    ensures |s| <= longest - 1 && NoNul(s)
  {
    CStr(FgetsLine(c.input, longest - 1))
  }

  /** The string without its last character when that is a newline. */
  function StripNewline(s: string): string
  {
    if |s| > 0 && s[|s| - 1] == NEWLINE then s[..|s| - 1] else s
  }

  /** Exactly one newline is removed, and only at the end. */
  lemma StripNewlineRemovesOne(s: string)
    ensures StripNewline(s + [NEWLINE]) == s
    ensures (|s| == 0 || s[|s| - 1] != NEWLINE) ==> StripNewline(s) == s
    ensures StripNewline(s) <= s && |StripNewline(s)| >= |s| - 1
  {
    assert (s + [NEWLINE])[..|s|] == s;
  }

  /** The passphrase acquisition stores, or None when it ends the process
      with the unable-to-get-passphrase status. On a terminal the trailing
      newline is removed; from a pipe or file the line is kept as read. */
  function Acquired(c: Console, longest: nat): (r: Option<string>)
    requires longest >= 2
    ensures r.Some? <==> (!ReadFails(c) &&
      (c.kind == NotTty || (c.kind == Tty && !c.getAttrFails && !c.setAttrFails && !c.resetAttrFails)))
    ensures r.Some? ==> |r.value| <= longest - 1 && NoNul(r.value)
  {
    match c.kind
    case Tty =>
      if c.getAttrFails || c.setAttrFails || ReadFails(c) || c.resetAttrFails then None
      else Some(StripNewline(ReadLine(c, longest)))
    case NotTty =>
      if ReadFails(c) then None else Some(ReadLine(c, longest))
    case TtyCheckFailed => None
  }

  /** A passphrase typed at a terminal contains no newline; one read from
      elsewhere is the line as `fgets` returned it, newline included. */
  lemma AcquiredNewlines(c: Console, longest: nat)
    requires longest >= 2 && Acquired(c, longest).Some?
    ensures c.kind == Tty ==> NEWLINE !in Acquired(c, longest).value
    ensures c.kind == NotTty ==> Acquired(c, longest).value == ReadLine(c, longest)
  {
    if c.kind == Tty {
      var line := FgetsLine(c.input, longest - 1);
      var s := CStr(line);
      var r := StripNewline(s);
      assert s <= line;
      forall j | 0 <= j < |r|
        ensures r[j] != NEWLINE
      {
        assert r[j] == s[j] == line[j];
        if j == |line| - 1 {
          assert |s| == |line|;
        }
      }
    }
  }

  /** `echo secret | prog enrol ...` and typing `secret` at the prompt give
      different passphrases: the pipe keeps the newline. */
  lemma NewlineKeptOnlyOffTerminal(longest: nat)
    requires longest >= 9
    ensures Acquired(Console(NotTty, false, false, false, "secret\n", false), longest) == Some("secret\n")
    ensures Acquired(Console(Tty, false, false, false, "secret\n", false), longest) == Some("secret")
  {
    var line := "secret\n";
    SecretLineRead(longest);
    assert ReadLine(Console(NotTty, false, false, false, line, false), longest) == line;
    assert ReadLine(Console(Tty, false, false, false, line, false), longest) == line;
    assert line[..|line| - 1] == "secret";
  }

  /** The whole line `secret\n` fits and is read as it is. */
  lemma SecretLineRead(longest: nat)
    requires longest >= 9
    ensures CStr(FgetsLine("secret\n", longest - 1)) == "secret\n"
  {
    var line := "secret\n";
    var r := longest - 1;
    assert FgetsLine("\n", r - 6) == "\n";
    assert FgetsLine("t\n", r - 5) == "t\n" by { assert "t\n"[1..] == "\n"; }
    assert FgetsLine("et\n", r - 4) == "et\n" by { assert "et\n"[1..] == "t\n"; }
    assert FgetsLine("ret\n", r - 3) == "ret\n" by { assert "ret\n"[1..] == "et\n"; }
    assert FgetsLine("cret\n", r - 2) == "cret\n" by { assert "cret\n"[1..] == "ret\n"; }
    assert FgetsLine("ecret\n", r - 1) == "ecret\n" by { assert "ecret\n"[1..] == "cret\n"; }
    assert FgetsLine(line, r) == line by { assert line[1..] == "ecret\n"; }
    CLenUnique(line, |line|);
  }

  /** The terminal's `c_lflag` once a prompt on it has ended. It is restored
      when the passphrase was read and stored; when the read itself fails,
      or restoring fails, echo stays off. */
  function LflagAfterPrompt(saved: bv32, c: Console): bv32
  {
    if c.getAttrFails || c.setAttrFails then saved
    else if ReadFails(c) || c.resetAttrFails then PromptFlags(saved)
    else saved
  }

  /** A successful prompt leaves the terminal as it found it. */
  lemma PromptRestoresTerminal(saved: bv32, c: Console, longest: nat)
    requires longest >= 2 && c.kind == Tty && Acquired(c, longest).Some?
    ensures LflagAfterPrompt(saved, c) == saved
  {
  }

  /** A read failure at the prompt ends the process with echo still off. */
  lemma FailedReadLeavesEchoOff(saved: bv32, c: Console)
    requires !c.getAttrFails && !c.setAttrFails && ReadFails(c)
    ensures LflagAfterPrompt(saved, c) & ECHO == 0
    ensures LflagAfterPrompt(saved, c) & ECHONL == ECHONL
  {
  }

  /** Removes one trailing newline from the C string in `buf`, in place. An
      empty string is left alone. */
  method StripTrailingNewline(buf: array<char>)
    requires NUL in buf[..]
    modifies buf
    ensures NUL in buf[..]
    ensures CStr(buf[..]) == StripNewline(CStr(old(buf[..])))
    ensures var n := CLen(old(buf[..]));
      buf[..] == if 0 < n && old(buf[n - 1]) == NEWLINE then old(buf[..])[n - 1 := NUL] else old(buf[..])
  {
    var n := CLen(buf[..]);
    if n > 0 && buf[n - 1] == NEWLINE {
      CLenAfterCut(buf[..], n - 1);
      buf[n - 1] := NUL;
    }
  }

  /** One bounded `fgets(buf, LONGEST_VALID_PASSPHRASE, stdin)`; `ok` is false when it returns NULL. */
  method ReadLineInto(buf: array<char>, c: Console, longest: nat) returns (ok: bool)
    requires longest >= 2 && buf.Length == longest + 1
    modifies buf
    ensures ok == !ReadFails(c)
    ensures ok ==> NUL in buf[..] && CStr(buf[..]) == ReadLine(c, longest)
  {
    ok := Fgets(buf, longest, c.input, c.readError);
    if ok {
      ghost var line := FgetsLine(c.input, longest - 1);
      assert buf[|line|] == NUL;
      CStrOfTerminated(line, old(buf[..])[|line| + 1..]);
    }
  }

  /** The terminal branch: save `c_lflag`, switch echo off, read, strip the
      newline, restore. */
  method PromptOnTerminal(buf: array<char>, term: Terminal, c: Console, longest: nat) returns (ok: bool)
    requires longest >= 2 && buf.Length == longest + 1 && c.kind == Tty
    modifies buf, term
    ensures ok == Acquired(c, longest).Some?
    ensures ok ==> NUL in buf[..] && CStr(buf[..]) == Acquired(c, longest).value
    ensures term.lflag == LflagAfterPrompt(old(term.lflag), c)
  {
    if c.getAttrFails {
      return false;
    }
    var previous := term.lflag;
    if c.setAttrFails {
      return false;
    }
    term.lflag := PromptFlags(previous);
    ok := ReadLineInto(buf, c, longest);
    if !ok {
      return;
    }
    StripTrailingNewline(buf);
    if c.resetAttrFails {
      return false;
    }
    term.lflag := previous;
  }

  /** Reads the passphrase into `buf` (LONGEST_VALID_PASSPHRASE + 1
      characters), switching echo off around the read on a terminal; `ok` is
      false where the process would exit with the unable-to-get-passphrase status. */
  method ReadPassphraseInto(buf: array<char>, term: Terminal, c: Console, longest: nat) returns (ok: bool)
    requires longest >= 2 && buf.Length == longest + 1
    modifies buf, term
    ensures ok == Acquired(c, longest).Some?
    ensures ok ==> NUL in buf[..] && CStr(buf[..]) == Acquired(c, longest).value
    ensures term.lflag == if c.kind == Tty then LflagAfterPrompt(old(term.lflag), c) else old(term.lflag)
  {
    if c.kind == Tty {
      ok := PromptOnTerminal(buf, term, c, longest);
    } else if c.kind == NotTty {
      ok := ReadLineInto(buf, c, longest);
    } else {
      ok := false;
    }
  }
}
