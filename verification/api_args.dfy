/**
 Argument handling of the administrative command-line client: `trim` and
 the resolution of `[command [host [port]]]` in `main`.

 `trim` skips leading whitespace and then overwrites EVERY whitespace
 character of the rest with NUL, not only the trailing ones, so the C string
 it returns is the first whitespace-free word of its argument.
 */
module ApiArgs {
  import opened CStrings

  /** A command-line argument: a C string, which cannot hold a NUL. */
  type Arg = s: string | NUL !in s

  const DEFAULT_COMMAND: string := "summary"
  const DEFAULT_HOST: string := "127.0.0.1"
  const DEFAULT_PORT: string := "4028"

  /** The number of whitespace characters `trim` steps over at the start. */
  function LeadingSpaces(s: string): (n: nat)
    ensures n <= |s|
    ensures forall i :: 0 <= i < n ==> IsSpace(s[i])
    ensures n < |s| ==> !IsSpace(s[n])
    decreases |s|
  {
    if |s| > 0 && IsSpace(s[0]) then 1 + LeadingSpaces(s[1..]) else 0
  }

  /** The length of the leading run of `s` that holds neither whitespace nor NUL. */
  function WordLength(s: string): (n: nat)
    ensures n <= |s|
    ensures forall i :: 0 <= i < n ==> !IsSpace(s[i]) && s[i] != NUL
    ensures n < |s| ==> IsSpace(s[n]) || s[n] == NUL
    decreases |s|
  {
    if |s| > 0 && !IsSpace(s[0]) && s[0] != NUL then 1 + WordLength(s[1..]) else 0
  }

  /** A string with no whitespace and no NUL in it. */
  predicate IsWord(s: string)
  {
    forall c :: c in s ==> !IsSpace(c) && c != NUL
  }

  /** The C string `trim(s)` returns: the first word after the leading
      whitespace. */
  function Trim(s: string): (r: string)
    ensures IsWord(r)
    ensures |r| <= |s|
  {
    var t := s[LeadingSpaces(s)..];
    t[..WordLength(t)]
  }

  /** `trim` as written: step over leading whitespace, find the terminator,
      then walk back to the start overwriting each whitespace with NUL.
      Returns the new start and the buffer after the overwrites. */
  method TrimInPlace(s: string) returns (start: nat, buf: string)
    ensures start == LeadingSpaces(s)
    ensures |buf| == |s|
    ensures forall i :: 0 <= i < |s| ==>
              buf[i] == (if start <= i < start + |CString(s[start..])| && IsSpace(s[i]) then NUL else s[i])
    ensures CString(buf[start..]) == Trim(s)
  {
    start := 0;
    while start < |s| && IsSpace(s[start])
      invariant start <= |s|
      invariant forall i :: 0 <= i < start ==> IsSpace(s[i])
    {
      start := start + 1;
    }
    var end := start + |CString(s[start..])|;
    buf := s;
    var ptr := end;
    while ptr > start
      invariant start <= ptr <= end
      invariant |buf| == |s|
      invariant forall i :: 0 <= i < |s| ==> buf[i] == (if ptr <= i < end && IsSpace(s[i]) then NUL else s[i])
    {
      ptr := ptr - 1;
      if IsSpace(buf[ptr]) {
        buf := buf[ptr := NUL];
      }
    }
    TrimmedBuffer(s, start, buf);
  }

  /** After the overwrites the C string at `start` ends at the first
      whitespace or NUL, which is where `Trim` ends. */
  lemma TrimmedBuffer(s: string, start: nat, buf: string)
    requires start == LeadingSpaces(s)
    requires |buf| == |s|
    requires forall i :: 0 <= i < |s| ==>
               buf[i] == (if start <= i < start + |CString(s[start..])| && IsSpace(s[i]) then NUL else s[i])
    ensures CString(buf[start..]) == Trim(s)
  {
    var t := s[start..];
    var b := buf[start..];
    forall i | 0 <= i < |t|
      ensures b[i] == (if i < |CString(t)| && IsSpace(t[i]) then NUL else t[i])
    {
      assert b[i] == buf[start + i] && t[i] == s[start + i];
    }
    OverwrittenWord(t, b);
  }

  /** Overwriting the whitespace of a C string with NUL leaves as C string its
      first word. */
  lemma OverwrittenWord(t: string, b: string)
    requires |b| == |t|
    requires forall i :: 0 <= i < |t| ==> b[i] == (if i < |CString(t)| && IsSpace(t[i]) then NUL else t[i])
    ensures CString(b) == t[..WordLength(t)]
  {
    var w := WordLength(t);
    var e := |CString(t)|;
    assert w <= e;
    assert forall i :: 0 <= i < w ==> b[i] == t[i];
    assert b[..w] == t[..w];
    if w < |t| {
      assert b[w] == NUL;
      FindAt(b, NUL, w);
    } else {
      assert b == t;
    }
  }

  // ---------------------------------------------------------------------
  // Properties of trim

  /** Trimming a trimmed string changes nothing. */
  lemma TrimIdempotent(s: string)
    ensures Trim(Trim(s)) == Trim(s)
  {
    var r := Trim(s);
    TrimOfWord(r);
  }

  /** A string with no whitespace and no NUL is its own trim, and only such
      strings are. */
  lemma TrimOfWord(s: string)
    ensures Trim(s) == s <==> IsWord(s)
  {
    if IsWord(s) {
      if |s| > 0 {
        assert s[0] in s;
      }
      assert LeadingSpaces(s) == 0;
      assert forall i :: 0 <= i < |s| ==> s[i] in s;
      assert WordLength(s) == |s|;
    }
  }

  /** Whitespace before, between and after words is cut away with everything
      after the first word: `trim("  pool  stats ")` is `pool`. */
  lemma TrimFirstWord(pre: string, word: string, sep: char, rest: string)
    requires forall c :: c in pre ==> IsSpace(c)
    requires word != "" && IsWord(word)
    requires IsSpace(sep)
    ensures Trim(pre + word + [sep] + rest) == word
  {
    var s := pre + word + [sep] + rest;
    assert forall i :: 0 <= i < |pre| ==> s[i] == pre[i] && pre[i] in pre;
    assert s[|pre|] == word[0] && word[0] in word;
    assert LeadingSpaces(s) == |pre|;
    var t := s[|pre|..];
    assert t == word + [sep] + rest;
    assert forall i :: 0 <= i < |word| ==> t[i] == word[i] && word[i] in word;
    assert t[|word|] == sep;
    assert WordLength(t) == |word|;
    assert t[..|word|] == word;
  }

  // ---------------------------------------------------------------------
  // main

  /** What `main` does: print the usage line and exit 1, or query the server. */
  datatype Invocation = Usage | Query(command: string, host: string, port: string)

  /** The help flags, compared with `strcmp` against the untrimmed argument. */
  predicate IsHelpFlag(arg: string)
  {
    arg == "-?" || arg == "-h" || arg == "--help"
  }

  /** The defaults are single non-empty words. */
  lemma DefaultsAreWords()
    ensures DEFAULT_COMMAND != "" && IsWord(DEFAULT_COMMAND)
    ensures DEFAULT_HOST != "" && IsWord(DEFAULT_HOST)
    ensures DEFAULT_PORT != "" && IsWord(DEFAULT_PORT)
  {
    WordByIndex(DEFAULT_COMMAND);
    WordByIndex(DEFAULT_HOST);
    WordByIndex(DEFAULT_PORT);
  }

  lemma WordByIndex(s: string)
    requires forall i :: 0 <= i < |s| ==> '!' <= s[i] <= '~'
    ensures IsWord(s)
  {
    forall c | c in s
      ensures !IsSpace(c) && c != NUL
    {
      var i :| 0 <= i < |s| && s[i] == c;
    }
  }

  /** `argv[i]` trimmed when given and non-empty after trimming, else the
      default; either way a non-empty word when the default is one. */
  function ArgOr(argv: seq<Arg>, i: nat, default: string): (r: string)
    requires default != "" && IsWord(default)
    ensures r == default || (i < |argv| && r == Trim(argv[i]))
    ensures r != "" && IsWord(r)
  {
    if i < |argv| && Trim(argv[i]) != "" then Trim(argv[i]) else default
  }

  /** `main` up to the call of `callapi`; `argv[0]` is the program name. */
  function ResolveArgs(argv: seq<Arg>): (inv: Invocation)
    ensures inv.Usage? <==> |argv| > 1 && IsHelpFlag(argv[1])
    ensures inv.Query? ==> inv.command != "" && inv.host != "" && inv.port != ""
    ensures inv.Query? ==> IsWord(inv.command) && IsWord(inv.host) && IsWord(inv.port)
  {
    if |argv| > 1 && IsHelpFlag(argv[1]) then Usage
    else
      DefaultsAreWords();
      Query(ArgOr(argv, 1, DEFAULT_COMMAND), ArgOr(argv, 2, DEFAULT_HOST), ArgOr(argv, 3, DEFAULT_PORT))
  }

  /** With no arguments the client asks 127.0.0.1:4028 for `summary`. */
  lemma ResolveDefaults(argv: seq<Arg>)
    requires |argv| <= 1
    ensures ResolveArgs(argv) == Query("summary", "127.0.0.1", "4028")
  {
  }

  /** Each of the first three arguments replaces its default exactly when it
      is non-empty after trimming; arguments past the third are ignored. */
  lemma ResolveOverrides(argv: seq<Arg>)
    requires !(|argv| > 1 && IsHelpFlag(argv[1]))
    ensures ResolveArgs(argv).command == (if |argv| > 1 && Trim(argv[1]) != "" then Trim(argv[1]) else DEFAULT_COMMAND)
    ensures ResolveArgs(argv).host == (if |argv| > 2 && Trim(argv[2]) != "" then Trim(argv[2]) else DEFAULT_HOST)
    ensures ResolveArgs(argv).port == (if |argv| > 3 && Trim(argv[3]) != "" then Trim(argv[3]) else DEFAULT_PORT)
    ensures |argv| > 4 ==> ResolveArgs(argv) == ResolveArgs(argv[..4])
  {
  }

  /** The help check looks at the argument before trimming: ` -h` is not a
      help request but the command `-h`. */
  lemma HelpIsNotTrimmed()
    ensures ResolveArgs(["cgminer-api", " -h"]) == Query("-h", DEFAULT_HOST, DEFAULT_PORT)
  {
    assert LeadingSpaces(" -h") == 1;
    assert " -h"[1..] == "-h";
    assert WordLength("-h") == 2;
  }
}
