/** The command-line tokeniser that turns `argv` into a key/value dictionary. */
module Cli {

  /** A dictionary value: the token after an option, or `True` for a bare flag. */
  datatype ArgValue = Str(s: string) | Flag

  type Parsed = map<string, ArgValue>

  /** `t.startswith("--")`. */
  predicate IsOption(t: string) {
    |t| >= 2 && t[..2] == "--"
  }

  /** The value stored for the option at position `i`: the next token when it is not itself an option. */
  function ValueAt(args: seq<string>, i: nat): (v: ArgValue)
    requires i < |args|
    ensures v.Str? <==> i + 1 < |args| && !IsOption(args[i + 1])
    ensures v.Str? ==> v.s == args[i + 1]
  {
    if i + 1 < |args| && !IsOption(args[i + 1]) then Str(args[i + 1]) else Flag
  }

  /** Position `i` (after the command) holds the option `--k`. */
  predicate Names(args: seq<string>, i: nat, k: string) {
    1 <= i < |args| && IsOption(args[i]) && args[i][2..] == k
  }

  /** The dictionary after the loop has looked at positions `1 .. n - 1`. */
  function ParseUpTo(args: seq<string>, n: nat): Parsed
    requires 1 <= n <= |args|
    decreases n
  {
    if n == 1 then map["command" := Str(args[0])]
    else
      var m := ParseUpTo(args, n - 1);
      var i := n - 1;
      if IsOption(args[i]) then m[args[i][2..] := ValueAt(args, i)] else m
  }

  /** `parse_args(args)`: no arguments means the `help` command. */
  function ParseArgs(args: seq<string>): (r: Parsed)
    ensures |args| == 0 ==> r == map["command" := Str("help")]
    ensures |args| > 0 ==> "command" in r
  {
    if |args| == 0 then map["command" := Str("help")]
    else
      ParseUpToCommand(args, |args|);
      ParseUpTo(args, |args|)
  }

  lemma {:induction false} ParseUpToCommand(args: seq<string>, n: nat)
    requires 1 <= n <= |args|
    ensures "command" in ParseUpTo(args, n)
    decreases n
  {
    if n > 1 {
      ParseUpToCommand(args, n - 1);
    }
  }

  /** The value of key `k` is the one given by the last `--k` before `n`. */
  lemma {:induction false} ParseUpToLast(args: seq<string>, n: nat, k: string, i: nat)
    requires 1 <= n <= |args| && i < n && Names(args, i, k)
    requires forall j :: i < j < n ==> !Names(args, j, k)
    ensures k in ParseUpTo(args, n) && ParseUpTo(args, n)[k] == ValueAt(args, i)
    decreases n
  {
    if n - 1 > i {
      ParseUpToLast(args, n - 1, k, i);
      assert !Names(args, n - 1, k);
    }
  }

  /** A key no option names is present only as `command`, holding the first argument. */
  lemma {:induction false} ParseUpToUnnamed(args: seq<string>, n: nat, k: string)
    requires 1 <= n <= |args|
    requires forall j :: 1 <= j < n ==> !Names(args, j, k)
    ensures k in ParseUpTo(args, n) <==> k == "command"
    ensures k == "command" ==> ParseUpTo(args, n)[k] == Str(args[0])
    decreases n
  {
    if n > 1 {
      ParseUpToUnnamed(args, n - 1, k);
      assert !Names(args, n - 1, k);
    }
  }

  /** A later duplicate overwrites an earlier one: the last `--k` decides the value of `k`. */
  lemma ParseArgsLastWins(args: seq<string>, k: string, i: nat)
    requires Names(args, i, k)
    requires forall j :: i < j < |args| ==> !Names(args, j, k)
    ensures k in ParseArgs(args) && ParseArgs(args)[k] == ValueAt(args, i)
  {
    ParseUpToLast(args, |args|, k, i);
  }

  /** Keys that no option names: only `command`, which is `args[0]`. */
  lemma ParseArgsUnnamed(args: seq<string>, k: string)
    requires |args| > 0
    requires forall j :: 1 <= j < |args| ==> !Names(args, j, k)
    ensures k in ParseArgs(args) <==> k == "command"
    ensures k == "command" ==> ParseArgs(args)[k] == Str(args[0])
  {
    ParseUpToUnnamed(args, |args|, k);
  }

  /** Every key of the dictionary is `command` or named by some option. */
  lemma ParseArgsKeys(args: seq<string>, k: string)
    requires |args| > 0 && k in ParseArgs(args) && k != "command"
    ensures exists i :: Names(args, i, k)
  {
    if forall j :: 1 <= j < |args| ==> !Names(args, j, k) {
      ParseUpToUnnamed(args, |args|, k);
    }
  }

  /** The loop of `parse_args`, building the dictionary one position at a time. */
  method ParseArguments(args: seq<string>) returns (parsed: Parsed)
    ensures parsed == ParseArgs(args)
  {
    if |args| == 0 {
      return map["command" := Str("help")];
    }
    parsed := map["command" := Str(args[0])];
    for i := 1 to |args|
      invariant parsed == ParseUpTo(args, i)
    {
      if IsOption(args[i]) {
        var key := args[i][2..];
        if i + 1 < |args| && !IsOption(args[i + 1]) {
          parsed := parsed[key := Str(args[i + 1])];
        } else {
          parsed := parsed[key := Flag];
        }
      }
    }
  }
}
