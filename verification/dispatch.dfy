/**
  Command-line dispatch of `main`, and the mapping of a port name to the
  device path `Recv` opens. `args` is `argv` as a sequence, so `|args|` is
  `argc` and `args[0]` is the program name.
 */
module Dispatch {

  /** What `main` goes on to do. */
  datatype Command =
    | Syntax                           // print the usage text and exit with status 0
    | List                             // list the COM ports
    | Recv(portName: string)           // run the receive monitor on this port
    | Unrecognised(subcommand: string) // fatal: "unrecognised subcommand", exit status 1

  /** The status the process exits with once the command is done (`Recv` never finishes normally). */
  function ExitStatus(cmd: Command): (code: nat)
    requires !cmd.Recv?
  {
    if cmd.Unrecognised? then 1 else 0
  }

  /** `_stricmp` lower-cases ASCII letters before comparing. */
  function LowerChar(ch: char): char {
    if 'A' <= ch <= 'Z' then (ch as int - 'A' as int + 'a' as int) as char else ch
  }

  /** The whole string lower-cased. */
  function Lower(s: string): (r: string)
    ensures |r| == |s|
    ensures forall i :: 0 <= i < |s| ==> r[i] == LowerChar(s[i])
  {
    seq(|s|, i requires 0 <= i < |s| => LowerChar(s[i]))
  }

  /** `_stricmp(a, b) == 0`: the strings agree character by character once lower-cased. */
  function SameIgnoringCase(a: string, b: string): (same: bool)
    ensures same ==> |a| == |b|
    ensures a == b ==> same
    decreases |a|
  {
    if |a| == 0 || |b| == 0 then |a| == |b|
    else LowerChar(a[0]) == LowerChar(b[0]) && SameIgnoringCase(a[1..], b[1..])
  }

  /** The character-by-character comparison is equality of the lower-cased strings. */
  lemma {:induction false} SameIgnoringCaseIffLowerEqual(a: string, b: string)
    ensures SameIgnoringCase(a, b) <==> Lower(a) == Lower(b)
    decreases |a|
  {
    if |a| > 0 && |b| > 0 {
      SameIgnoringCaseIffLowerEqual(a[1..], b[1..]);
      assert Lower(a) == [LowerChar(a[0])] + Lower(a[1..]);
      assert Lower(b) == [LowerChar(b[0])] + Lower(b[1..]);
    }
  }

  /** The subcommand routing of `main`. */
  function Route(args: seq<string>): (cmd: Command)
    ensures |args| < 2 ==> cmd == Syntax
    ensures cmd == List ==> |args| == 2 && SameIgnoringCase(args[1], "list")
    ensures cmd.Recv? ==> |args| >= 3 && SameIgnoringCase(args[1], "recv") && cmd.portName == args[2]
    ensures cmd.Unrecognised? ==> |args| >= 2 && cmd.subcommand == args[1]
  {
    if |args| < 2 then Syntax
    else if SameIgnoringCase(args[1], "list") then
      (if |args| != 2 then Syntax else List)
    else if SameIgnoringCase(args[1], "recv") then
      (if |args| < 3 then Syntax else Recv(args[2]))
    else
      Unrecognised(args[1])
  }

  /** Each outcome of `Route`, characterised from the arguments alone. */
  lemma RouteOutcomes(args: seq<string>)
    ensures Route(args) == Syntax <==>
              || |args| < 2
              || (Lower(args[1]) == "list" && |args| != 2)
              || (Lower(args[1]) == "recv" && |args| < 3)
    ensures Route(args) == List <==> |args| == 2 && Lower(args[1]) == "list"
    ensures Route(args).Recv? <==> |args| >= 3 && Lower(args[1]) == "recv"
    ensures Route(args).Recv? ==> Route(args).portName == args[2]
    ensures Route(args).Unrecognised? <==> |args| >= 2 && Lower(args[1]) != "list" && Lower(args[1]) != "recv"
    ensures Route(args).Unrecognised? ==> Route(args).subcommand == args[1] && ExitStatus(Route(args)) == 1
    ensures Route(args) == Syntax ==> ExitStatus(Route(args)) == 0
  {
    if |args| >= 2 {
      SameIgnoringCaseIffLowerEqual(args[1], "list");
      SameIgnoringCaseIffLowerEqual(args[1], "recv");
      assert Lower("list") == "list";
      assert Lower("recv") == "recv";
      assert Lower("list") != "recv";
    }
  }

  /** Upper- and mixed-case spellings of a subcommand are accepted. */
  lemma CaseDoesNotMatter(args: seq<string>, sub: string)
    requires |args| >= 2 && Lower(args[1]) == Lower(sub)
    ensures Route(args).Unrecognised? <==> Route(args[1 := sub]).Unrecognised?
    ensures !Route(args).Unrecognised? ==> Route(args) == Route(args[1 := sub])
  {
    RouteOutcomes(args);
    RouteOutcomes(args[1 := sub]);
  }

  /** The `\\.\` prefix that turns a port name into a device path. */
  const DevicePrefix: string := "\\\\.\\"

  /** The device path opened for a port name. */
  function PortPath(portName: string): (path: string)
    ensures |path| == |portName| + 4
    ensures path[..4] == ['\\', '\\', '.', '\\']
    ensures path[4..] == portName
  {
    DevicePrefix + portName
  }

  /** Distinct port names open distinct paths. */
  lemma PortPathInjective(a: string, b: string)
    requires PortPath(a) == PortPath(b)
    ensures a == b
  {
    assert a == PortPath(a)[4..];
  }
}
