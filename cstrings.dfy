/** The C string primitives the front end relies on, over buffers of `char`:
    `strlen`, `strndup`, `fgets` on a stream and `sodium_memzero`. */
module CStrings {

  const NUL: char := '\0'
  const NEWLINE: char := '\n'

  /** A string that can be a C string: no NUL inside it. */
  predicate NoNul(s: seq<char>)
  {
    forall i :: 0 <= i < |s| ==> s[i] != NUL
  }

  /** `strlen`: the position of the first NUL (the whole length when there is none). */
  function CLen(buf: seq<char>): (n: nat)
    ensures n <= |buf|
    ensures forall i :: 0 <= i < n ==> buf[i] != NUL
    ensures n < |buf| ==> buf[n] == NUL
  {
    if buf == [] || buf[0] == NUL then 0 else 1 + CLen(buf[1..])
  }

  /** The first-NUL position is unique: any `n` with the three properties of CLen is CLen. */
  lemma CLenUnique(buf: seq<char>, n: nat)
    requires n <= |buf|
    requires forall i :: 0 <= i < n ==> buf[i] != NUL
    requires n < |buf| ==> buf[n] == NUL
    ensures CLen(buf) == n
  {
  }

  /** The string a buffer holds when read as a C string. */
  function CStr(buf: seq<char>): (s: string)
    ensures NoNul(s) && s <= buf
    ensures |s| < |buf| ==> buf[|s|] == NUL
  {
    buf[..CLen(buf)]
  }

  /** A buffer that holds a NUL holds its C string and the terminator. */
  lemma CStrIsShorter(buf: seq<char>)
    requires NUL in buf
    ensures |CStr(buf)| < |buf| && buf[|CStr(buf)|] == NUL
  {
    var k :| 0 <= k < |buf| && buf[k] == NUL;
  }

  /** Whatever follows a NUL written after `s` is invisible to the C string. */
  lemma CStrOfTerminated(s: seq<char>, rest: seq<char>)
    ensures CStr(s + [NUL] + rest) == CStr(s)
  {
    var t := s + [NUL] + rest;
    var n := CLen(s);
    assert forall i :: 0 <= i < n ==> t[i] == s[i];
    assert t[n] == NUL;
    CLenUnique(t, n);
  }

  /** A NUL-free string stored with its terminator reads back as itself. */
  lemma CStrOfString(s: seq<char>, rest: seq<char>)
    requires NoNul(s)
    ensures CStr(s + [NUL] + rest) == s
  {
    CStrOfTerminated(s, rest);
    CLenUnique(s, |s|);
  }

  /** Writing a NUL inside the string cuts it there. */
  lemma CLenAfterCut(buf: seq<char>, k: nat)
    requires k < CLen(buf)
    ensures CLen(buf[k := NUL]) == k
  {
    CLenUnique(buf[k := NUL], k);
  }

  /** The at most `n` first characters of `s`: what `strndup(s, n)` copies. */
  function Truncated(s: string, n: nat): (t: string)
    ensures t <= s && |t| <= n
    ensures |s| <= n ==> t == s
    ensures |s| > n ==> |t| == n
  {
    if |s| <= n then s else s[..n]
  }

  /** `strndup(s, n)` on a C string: a fresh buffer holding at most `n`
      characters of `s` and a terminator. */
  method Strndup(s: string, n: nat) returns (buf: array<char>)
    requires NoNul(s)
    ensures fresh(buf)
    ensures buf[..] == Truncated(s, n) + [NUL]
    ensures buf.Length <= n + 1
    ensures CStr(buf[..]) == Truncated(s, n)
  {
    var t := Truncated(s, n);
    buf := new char[|t| + 1](i requires 0 <= i <= |t| => if i < |t| then t[i] else NUL);
    assert buf[..] == t + [NUL];
    CStrOfString(t, []);
    assert t + [NUL] + [] == t + [NUL];
  }

  /** The characters `fgets(buf, room + 1, stream)` stores before its
      terminator when the stream holds `input`: at most `room` of them,
      stopping after the first newline. */
  function FgetsLine(input: seq<char>, room: nat): (line: seq<char>)
    ensures line <= input && |line| <= room
    ensures forall i :: 0 <= i < |line| - 1 ==> line[i] != NEWLINE
    ensures |line| < room && |line| < |input| ==> |line| > 0 && line[|line| - 1] == NEWLINE
  {
    if room == 0 || input == [] then []
    else if input[0] == NEWLINE then [NEWLINE]
    else [input[0]] + FgetsLine(input[1..], room - 1)
  }

  /** `fgets(buf, size, stream)` where the stream holds `input` and fails with
      a read error when `readError`. It reports failure (NULL) on an error or
      on end of file before any character, and never writes past
      `buf[size - 1]`; after a failure the buffer's contents are not
      specified. The line is determined first and then copied, which
      stores the same characters as reading them one at a time. */
  method Fgets(buf: array<char>, size: nat, input: seq<char>, readError: bool) returns (ok: bool)
    requires 2 <= size <= buf.Length
    modifies buf
    ensures ok == (!readError && input != [])
    ensures ok ==> buf[..] == FgetsLine(input, size - 1) + [NUL] + old(buf[..])[|FgetsLine(input, size - 1)| + 1..]
  {
    if readError || input == [] {
      return false;
    }
    var line := FgetsLine(input, size - 1);
    for k := 0 to |line|
      invariant forall j :: 0 <= j < k ==> buf[j] == line[j]
      invariant forall j :: k <= j < buf.Length ==> buf[j] == old(buf[j])
    {
      buf[k] := line[k];
    }
    buf[|line|] := NUL;
    ok := true;
    FgetsResult(buf[..], old(buf[..]), line, |line|);
  }

  /** The buffer after the copy loop of Fgets. */
  lemma FgetsResult(buf: seq<char>, was: seq<char>, line: seq<char>, i: nat)
    requires |buf| == |was| && i < |buf| && |line| == i
    requires forall k :: 0 <= k < i ==> buf[k] == line[k]
    requires buf[i] == NUL
    requires forall k :: i < k < |buf| ==> buf[k] == was[k]
    ensures buf == line + [NUL] + was[i + 1..]
  {
  }

  /** `sodium_memzero(buf, n)`: the first `n` characters become NUL, the rest stay. */
  method MemZero(buf: array<char>, n: nat)
    requires n <= buf.Length
    modifies buf
    ensures buf[..] == Zeros(n) + old(buf[..])[n..]
  {
    var i := 0;
    while i < n
      invariant 0 <= i <= n
      invariant buf[..i] == Zeros(i)
      invariant buf[i..] == old(buf[..])[i..]
    {
      buf[i] := NUL;
      i := i + 1;
    }
    assert buf[..] == buf[..n] + buf[n..];
  }

  function Zeros(n: nat): (z: seq<char>)
    ensures |z| == n && forall i :: 0 <= i < n ==> z[i] == NUL
  {
    seq(n, _ => NUL)
  }

  /** A buffer after `sodium_memzero(buf, strlen(buf))`. */
  function Scrubbed(buf: seq<char>): seq<char>
  {
    Zeros(CLen(buf)) + buf[CLen(buf)..]
  }

  /** Scrubbing keeps the buffer's size, clears every character of the C
      string it held, so that it then holds the empty string, and leaves the
      bytes from the terminator on as they were. */
  lemma ScrubbedErasesString(buf: seq<char>)
    ensures |Scrubbed(buf)| == |buf|
    ensures forall i :: 0 <= i < |CStr(buf)| ==> Scrubbed(buf)[i] == NUL
    ensures Scrubbed(buf)[|CStr(buf)|..] == buf[|CStr(buf)|..]
    ensures CStr(Scrubbed(buf)) == []
  {
    var s := Scrubbed(buf);
    if CLen(buf) > 0 {
      assert s[0] == NUL;
      CLenUnique(s, 0);
    } else {
      assert s == buf;
    }
  }

  /** Scrubbing a buffer that holds a terminated string zeroes every byte up
      to and including the terminator, so that it holds the empty string. */
  lemma ScrubbedZeroesTerminated(buf: seq<char>)
    requires NUL in buf
    ensures |CStr(buf)| < |buf| && CStr(Scrubbed(buf)) == []
    ensures forall i :: 0 <= i <= |CStr(buf)| ==> Scrubbed(buf)[i] == NUL
  {
    ScrubbedErasesString(buf);
    CStrIsShorter(buf);
  }

  /** For a buffer that holds a NUL-free string followed by its terminator,
      every byte up to and including the terminator is zero after scrubbing. */
  lemma ScrubbedClearsWholeSecret(secret: seq<char>, rest: seq<char>)
    requires NoNul(secret)
    ensures Scrubbed(secret + [NUL] + rest) == Zeros(|secret| + 1) + rest
  {
    var buf := secret + [NUL] + rest;
    CStrOfString(secret, rest);
    assert CLen(buf) == |secret|;
    assert buf[|secret|..] == [NUL] + rest;
    assert Zeros(|secret|) + [NUL] == Zeros(|secret| + 1);
  }
}
