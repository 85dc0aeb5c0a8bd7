/** The string helpers of the Windows shell integration, src/main/shellex.ts: quoting one argument,
    the command line of the running process without its switches, and the keys of the four
    "set as directory" sub-commands. */
module ShellEx {
  import opened Api
  import opened Strings

  // ----- escapeShellArg -----

  /** One character of the argument as it appears between the quotes: a quote is doubled. */
  function EscapedChar(c: char): (r: string)
    ensures c == '"' ==> r == "\"\""
    ensures c != '"' ==> r == [c]
  {
    if c == '"' then "\"\"" else [c]
  }

  /** `s.replaceAll('"', '""')`. */
  function DoubleQuotes(s: string): (r: string)
    ensures |r| == |s| + QuoteCount(s)
  {
    if s == [] then []
    else EscapedChar(s[0]) + DoubleQuotes(s[1..])
  }

  function QuoteCount(s: string): nat {
    if s == [] then 0 else (if s[0] == '"' then 1 else 0) + QuoteCount(s[1..])
  }

  /** `escapeShellArg`: the argument between double quotes, each quote inside doubled. */
  function EscapeShellArg(s: string): (r: string)
    ensures |r| == |s| + QuoteCount(s) + 2
    ensures r[0] == '"' && r[|r| - 1] == '"'
  {
    "\"" + DoubleQuotes(s) + "\""
  }

  /** Reads the body of a quoted argument up to its closing quote, collapsing each doubled quote:
      the argument and what follows the closing quote, or None when the quote is never closed. */
  function ReadQuotedBody(t: string): (r: Option<(string, string)>)
    ensures r.Some? ==> |r.value.1| < |t|
  {
    if t == [] then None
    else if t[0] == '"' && !(|t| >= 2 && t[1] == '"') then Some(([], t[1..]))
    else
      var width := if t[0] == '"' then 2 else 1;
      var more := ReadQuotedBody(t[width..]);
      if more.None? then None else Some(([t[0]] + more.value.0, more.value.1))
  }

  /** The body reader consumes one character, or a doubled quote, at a time. */
  lemma ReadQuotedBodyStep(c: char, inner: string, body: string, after: string)
    requires ReadQuotedBody(inner) == Some((body, after))
    ensures ReadQuotedBody(EscapedChar(c) + inner) == Some(([c] + body, after))
  {
    var t := EscapedChar(c) + inner;
    var width := if c == '"' then 2 else 1;
    assert t[0] == c && t[width..] == inner;
    assert c == '"' ==> |t| >= 2 && t[1] == '"';
  }

  /** A closing quote not followed by another quote ends the body. */
  lemma ReadClosingQuote(rest: string)
    requires rest == [] || rest[0] != '"'
    ensures ReadQuotedBody("\"" + rest) == Some(([], rest))
  {
    assert ("\"" + rest)[1..] == rest;
  }

  /** The escaped text followed by more text opens with the first character's escape. */
  lemma DoubleQuotesUnfold(s: string, rest: string)
    requires s != []
    ensures DoubleQuotes(s) + "\"" + rest == EscapedChar(s[0]) + (DoubleQuotes(s[1..]) + "\"" + rest)
  {
    assert DoubleQuotes(s) == EscapedChar(s[0]) + DoubleQuotes(s[1..]);
  }

  /** Reading the doubled body back yields the argument and what follows the closing quote, as long as
      that does not open with a quote (which would read as a doubled one). */
  lemma {:induction false} ReadDoubledBody(s: string, rest: string)
    requires rest == [] || rest[0] != '"'
    ensures ReadQuotedBody(DoubleQuotes(s) + "\"" + rest) == Some((s, rest))
  {
    if s == [] {
      assert DoubleQuotes(s) + "\"" + rest == "\"" + rest;
      ReadClosingQuote(rest);
    } else {
      var inner := DoubleQuotes(s[1..]) + "\"" + rest;
      DoubleQuotesUnfold(s, rest);
      ReadDoubledBody(s[1..], rest);
      ReadQuotedBodyStep(s[0], inner, s[1..], rest);
      assert [s[0]] + s[1..] == s;
    }
  }

  /** Reads one quoted argument: an opening quote, then the body. */
  function ReadQuoted(t: string): (r: Option<(string, string)>)
    ensures r.Some? ==> |r.value.1| < |t|
  {
    if t != [] && t[0] == '"' then ReadQuotedBody(t[1..]) else None
  }

  /** Stripping the outer quotes and collapsing doubled quotes recovers the argument; the reader stops at
      the closing quote when what follows is not a quote. */
  lemma UnescapeShellArg(s: string, rest: string)
    requires rest == [] || rest[0] != '"'
    ensures ReadQuoted(EscapeShellArg(s) + rest) == Some((s, rest))
  {
    var t := EscapeShellArg(s) + rest;
    assert t[1..] == DoubleQuotes(s) + "\"" + rest;
    ReadDoubledBody(s, rest);
  }

  /** Escaping is injective: two arguments with the same escape are the same. */
  lemma EscapeShellArgInjective(a: string, b: string)
    requires EscapeShellArg(a) == EscapeShellArg(b)
    ensures a == b
  {
    UnescapeShellArg(a, []);
    UnescapeShellArg(b, []);
    assert EscapeShellArg(a) + [] == EscapeShellArg(b) + [];
  }

  // ----- the command line without switches -----

  /** An element of argv as it appears in the command: `.` stands for the current directory. */
  function ResolveArg(s: string, currentDir: string): string {
    if s == "." then currentDir else s
  }

  /** `process.argv` without the elements starting with `--`, each `.` replaced by the current directory. */
  function WithoutSwitches(argv: seq<string>, currentDir: string): (r: seq<string>)
    ensures |r| <= |argv|
  {
    if argv == [] then []
    else (if StartsWith(argv[0], "--") then [] else [ResolveArg(argv[0], currentDir)]) + WithoutSwitches(argv[1..], currentDir)
  }

  /** What is kept is the current directory in place of a `.`, or an element of argv that is neither a
      switch nor `.`. */
  lemma {:induction false} WithoutSwitchesMembers(argv: seq<string>, currentDir: string)
    ensures forall x :: x in WithoutSwitches(argv, currentDir) ==>
              (x == currentDir && "." in argv) || (x in argv && x != "." && !StartsWith(x, "--"))
  {
    if argv != [] {
      WithoutSwitchesMembers(argv[1..], currentDir);
      assert forall x :: x in argv[1..] ==> x in argv;
    }
  }

  /** The filter works element by element, so it keeps the order of what it keeps. */
  lemma {:induction false} WithoutSwitchesAppend(a: seq<string>, b: seq<string>, currentDir: string)
    ensures WithoutSwitches(a + b, currentDir) == WithoutSwitches(a, currentDir) + WithoutSwitches(b, currentDir)
  {
    if a == [] {
      assert a + b == b;
    } else {
      var head := if StartsWith(a[0], "--") then [] else [ResolveArg(a[0], currentDir)];
      assert (a + b)[0] == a[0] && (a + b)[1..] == a[1..] + b;
      calc {
        WithoutSwitches(a + b, currentDir);
        head + WithoutSwitches(a[1..] + b, currentDir);
        { WithoutSwitchesAppend(a[1..], b, currentDir); }
        head + (WithoutSwitches(a[1..], currentDir) + WithoutSwitches(b, currentDir));
        (head + WithoutSwitches(a[1..], currentDir)) + WithoutSwitches(b, currentDir);
        WithoutSwitches(a, currentDir) + WithoutSwitches(b, currentDir);
      }
    }
  }

  /** A single element is dropped exactly when it is a switch, and otherwise resolved. */
  lemma WithoutSwitchesOne(s: string, currentDir: string)
    ensures WithoutSwitches([s], currentDir) == if StartsWith(s, "--") then [] else [ResolveArg(s, currentDir)]
  {
    assert [s][1..] == [];
  }

  /** The escaped arguments joined by single spaces. */
  function CommandString(args: seq<string>): string {
    if args == [] then ""
    else if |args| == 1 then EscapeShellArg(args[0])
    else EscapeShellArg(args[0]) + " " + CommandString(args[1..])
  }

  /** Reads back a non-empty command: quoted arguments separated by single spaces. */
  function ParseArgs(t: string): (r: Option<seq<string>>)
    decreases |t|
  {
    match ReadQuoted(t)
    case None => None
    case Some((arg, rest)) =>
      if rest == [] then Some([arg])
      else if rest[0] == ' ' then
        match ParseArgs(rest[1..])
        case None => None
        case Some(more) => Some([arg] + more)
      else None
  }

  function ParseCommand(t: string): Option<seq<string>> {
    if t == [] then Some([]) else ParseArgs(t)
  }

  /** The command string reads back as exactly the arguments it was built from. */
  lemma {:induction false} CommandStringRoundTrip(args: seq<string>)
    ensures ParseCommand(CommandString(args)) == Some(args)
  {
    if |args| == 1 {
      UnescapeShellArg(args[0], []);
      assert CommandString(args) == EscapeShellArg(args[0]) + [];
      assert CommandString(args) != [];
      assert args == [args[0]];
    } else if |args| > 1 {
      CommandStringRoundTrip(args[1..]);
      var rest := " " + CommandString(args[1..]);
      UnescapeShellArg(args[0], rest);
      assert CommandString(args) == EscapeShellArg(args[0]) + rest;
      assert rest[1..] == CommandString(args[1..]);
      assert CommandString(args[1..]) != [] by {
        assert |EscapeShellArg(args[1])| >= 2;
      }
      assert [args[0]] + args[1..] == args;
    }
  }

  // ----- the directory sub-commands -----

  /** The command-line switches of the four directory settings, declared outside the shell integration. */
  datatype DirectorySwitchNames = DirectorySwitchNames(unsortedJpg: string, unsortedRaw: string, sortedJpg: string, sortedRaw: string)

  /** One sub-command: the switch it passes, its menu caption and its registry key. */
  datatype DirectorySwitch = DirectorySwitch(switch: string, name: string, cmdkey: string)

  /** The decimal numeral of a position below ten. */
  function Digit(idx: nat): (r: string)
    requires idx < 10
    ensures |r| == 1 && '0' <= r[0] <= '9'
  {
    [(('0' as int) + idx) as char]
  }

  /** `directorySwitches`: the four settings in fixed order, each keyed by its position, `_` and its switch. */
  function DirectorySwitches(switches: DirectorySwitchNames): (r: seq<DirectorySwitch>)
    ensures |r| == 4
    ensures forall i :: 0 <= i < 4 ==> r[i].cmdkey == Digit(i) + "_" + r[i].switch
    ensures r[0].switch == switches.unsortedJpg && r[1].switch == switches.unsortedRaw
    ensures r[2].switch == switches.sortedJpg && r[3].switch == switches.sortedRaw
    ensures r[0].name == "Unsorted JPG" && r[1].name == "Unsorted RAW"
    ensures r[2].name == "Sorted JPG" && r[3].name == "Sorted RAW"
  {
    var base := [
      (switches.unsortedJpg, "Unsorted JPG"),
      (switches.unsortedRaw, "Unsorted RAW"),
      (switches.sortedJpg, "Sorted JPG"),
      (switches.sortedRaw, "Sorted RAW")];
    seq(4, i requires 0 <= i < 4 => DirectorySwitch(base[i].0, base[i].1, Digit(i) + "_" + base[i].0))
  }

  /** The keys are pairwise distinct, even when two settings share a switch, since each opens with its position. */
  lemma DirectorySwitchKeysDistinct(switches: DirectorySwitchNames)
    ensures forall i, j :: 0 <= i < j < 4 ==> DirectorySwitches(switches)[i].cmdkey != DirectorySwitches(switches)[j].cmdkey
  {
    var r := DirectorySwitches(switches);
    forall i, j | 0 <= i < j < 4 ensures r[i].cmdkey != r[j].cmdkey {
      assert r[i].cmdkey[0] == Digit(i)[0];
      assert r[j].cmdkey[0] == Digit(j)[0];
    }
  }
}
