// The program's string and argument handling: the directory of the executable
// taken from argv[0] (src/main.cpp:52-59) and the optional input prefix and
// "perf" switch (src/main.cpp:200-213).

module Cli {

  datatype Option<T> = None | Some(value: T)

  /** The executable's name, searched for in argv[0]. */
  const ExecutableName: string := "Protonect"

  /** The input prefix used when none is given on the command line. */
  const DefaultPrefix: string := "../data/shape_from_shading/default"

  /** The only accepted second argument. */
  const PerfToken: string := "perf"

  /** `pat` occurs in `s` starting at index `i`. */
  predicate OccursAt(s: string, pat: string, i: int)
  {
    0 <= i && i + |pat| <= |s| && s[i..i + |pat|] == pat
  }

  /** The last start index below `n` at which `pat` occurs in `s`, searching down. */
  function LastBelow(s: string, pat: string, n: nat): (r: Option<nat>)
    ensures r.Some? ==> r.value < n && OccursAt(s, pat, r.value)
    ensures r.Some? ==> forall i :: r.value < i < n ==> !OccursAt(s, pat, i)
    ensures r.None? ==> forall i :: 0 <= i < n ==> !OccursAt(s, pat, i)
  {
    if n == 0 then None
    else if OccursAt(s, pat, n - 1) then Some(n - 1)
    else LastBelow(s, pat, n - 1)
  }

  /** `s.rfind(pat)`: the start of the last occurrence of `pat` in `s`, or None
      (`string::npos`) when there is none. */
  function RFind(s: string, pat: string): (r: Option<nat>)
    ensures r.None? <==> forall i :: !OccursAt(s, pat, i)
    ensures r.Some? ==> OccursAt(s, pat, r.value) && forall i :: OccursAt(s, pat, i) ==> i <= r.value
  {
    if |pat| > |s| then None else LastBelow(s, pat, |s| - |pat| + 1)
  }

  /** `binpath`: argv[0] up to the last occurrence of the executable's name, or
      "/" when the name does not occur in it. */
  function BinPath(programPath: string): (b: string)
    ensures b == "/" || b <= programPath
  {
    match RFind(programPath, ExecutableName)
    case None => "/"
    case Some(i) => programPath[..i]
  }

  /** Without the executable's name in argv[0] the path is "/"; with it, the path
      is the prefix of argv[0] that the last occurrence of the name follows. */
  lemma BinPathMeaning(programPath: string)
    ensures (forall i :: !OccursAt(programPath, ExecutableName, i)) ==> BinPath(programPath) == "/"
    ensures (exists i :: OccursAt(programPath, ExecutableName, i)) ==>
      var b := BinPath(programPath);
      b <= programPath && OccursAt(programPath, ExecutableName, |b|) &&
      forall i :: |b| < i ==> !OccursAt(programPath, ExecutableName, i)
  {
  }

  /** For an executable invoked as `dir + "Protonect"` the path is exactly `dir`,
      whatever `dir` holds, since no later occurrence fits in what follows it. */
  lemma BinPathOfExecutable(dir: string)
    ensures BinPath(dir + ExecutableName) == dir
  {
  }

  /** What the program takes from its arguments. `invalidSecond` is the second
      argument when it is reported as invalid. */
  datatype Options = Options(inputPrefix: string, performanceRun: bool, invalidSecond: Option<string>)

  /** The argument handling of src/main.cpp:200-213, `argv` having `argc` entries. */
  function ParseArgs(argv: seq<string>): (o: Options)
    ensures !(o.performanceRun && o.invalidSecond.Some?)
  {
    var prefix := if |argv| >= 2 then argv[1] else DefaultPrefix;
    if |argv| > 2 then
      if argv[2] == PerfToken then Options(prefix, true, None)
      else Options(prefix, false, Some(argv[2]))
    else Options(prefix, false, None)
  }

  /** The input prefix is argv[1] when there is one and the default otherwise;
      the run is a performance run exactly when argv[2] is "perf", and any other
      argv[2] is reported and otherwise ignored. */
  lemma ParseArgsMeaning(argv: seq<string>)
    ensures ParseArgs(argv).inputPrefix == if |argv| >= 2 then argv[1] else DefaultPrefix
    ensures ParseArgs(argv).performanceRun <==> |argv| > 2 && argv[2] == PerfToken
    ensures ParseArgs(argv).invalidSecond.Some? <==> |argv| > 2 && argv[2] != PerfToken
    ensures ParseArgs(argv).invalidSecond.Some? ==> ParseArgs(argv).invalidSecond.value == argv[2]
  {
  }

  /** The command line that asks for a given prefix and run kind. */
  function CommandLine(program: string, prefix: string, perf: bool): (argv: seq<string>)
    ensures 2 <= |argv| <= 3 && argv[0] == program
  {
    [program, prefix] + (if perf then [PerfToken] else [])
  }

  /** Parsing a command line written by CommandLine gives back what it asks for,
      and every command line of two or three entries that draws no warning is
      the one written for what it parses to. */
  lemma ParseArgsRoundTrip(program: string, prefix: string, perf: bool, argv: seq<string>)
    ensures ParseArgs(CommandLine(program, prefix, perf)) == Options(prefix, perf, None)
    ensures 2 <= |argv| <= 3 && ParseArgs(argv).invalidSecond.None? ==>
      CommandLine(argv[0], ParseArgs(argv).inputPrefix, ParseArgs(argv).performanceRun) == argv
  {
  }
}
