/** The command-line front end of `src/cli/convert-epub.ts`: reading the
    arguments and drawing the progress bar. Running the conversion, printing
    and exiting are outside the model. */
module ConvertCli {
  import opened Results
  import opened Text
  import LlmTranslator

  /** What `main` does with its arguments: convert `input` into `output`, or
      print the usage line and exit with `exitCode`. */
  datatype Invocation = Convert(input: string, output: string) | Usage(exitCode: int)

  const DefaultOutput: string := "src/bilingual-content.json"
  const OutputFlag: string := "--output"
  const BarLength: nat := 40
  const Filled: char := '█'
  const Empty: char := '░'

  /** `args.indexOf(x)`: the first position holding `x`, or `None`. */
  function IndexOf(args: seq<string>, x: string): (r: Option<nat>)
    ensures r.None? <==> x !in args
    ensures r.Some? ==> r.value < |args| && args[r.value] == x && x !in args[..r.value]
  {
    if args == [] then None
    else if args[0] == x then Some(0)
    else
      match IndexOf(args[1..], x)
      case None => None
      case Some(i) =>
        assert args[..i + 1] == [args[0]] + args[1..][..i];
        Some(i + 1)
  }

  /** The argument handling of `main` (`args` excludes the node binary and
      the script): no arguments is a usage error with exit code 1; otherwise
      the first argument is the input, and the argument after the first
      `--output` replaces the default output path when it exists and is not
      empty. */
  function ParseArgs(args: seq<string>): (r: Invocation)
    ensures r.Usage? <==> args == []
    ensures r.Usage? ==> r.exitCode == 1
    ensures r.Convert? ==> r.input == args[0]
    ensures r.Convert? && OutputFlag !in args ==> r.output == DefaultOutput
    ensures r.Convert? && OutputFlag in args ==>
              var i := IndexOf(args, OutputFlag).value;
              r.output == if i + 1 < |args| && args[i + 1] != "" then args[i + 1] else DefaultOutput
  {
    if |args| < 1 then Usage(1)
    else
      var outputIndex := IndexOf(args, OutputFlag);
      var output :=
        if outputIndex.Some? && outputIndex.value + 1 < |args| && args[outputIndex.value + 1] != "" then
          args[outputIndex.value + 1]
        else DefaultOutput;
      Convert(args[0], output)
  }

  /** Only the first `--output` counts: whatever follows later ones is not
      an output path. */
  lemma FirstOutputFlagWins(input: string, rest: seq<string>, out: string, later: seq<string>)
    requires input != OutputFlag && OutputFlag !in rest && out != ""
    ensures ParseArgs([input] + rest + [OutputFlag, out] + later) == Convert(input, out)
  {
    var args := [input] + rest + [OutputFlag, out] + later;
    assert args[|rest| + 1] == OutputFlag;
    assert args[|rest| + 2] == out;
    assert args[..|rest| + 1] == [input] + rest;
  }

  /** `Math.round(40 * (progress / 100))`. For a whole percentage the exact
      quotient is never halfway between two integers, so floating-point error
      cannot change the result. */
  function FilledLength(progress: nat): (f: nat)
    ensures f * 100 <= BarLength * progress + 50 < (f + 1) * 100
  {
    LlmTranslator.RoundDiv(BarLength * progress, 100)
  }

  function Repeat(c: char, n: nat): (s: string)
    ensures |s| == n && forall i :: 0 <= i < n ==> s[i] == c
  {
    seq(n, _ => c)
  }

  /** `'█'.repeat(filled) + '░'.repeat(40 - filled)`; `repeat` throws on a
      negative count, which happens once the progress passes 101. */
  function ProgressBar(progress: nat): (r: Result<string>)
    ensures r.Success? <==> FilledLength(progress) <= BarLength
    ensures r.Success? ==> |r.value| == BarLength
    ensures r.Success? ==> forall i :: 0 <= i < BarLength ==>
              r.value[i] == if i < FilledLength(progress) then Filled else Empty
  {
    var filled := FilledLength(progress);
    if filled > BarLength then Failure("Invalid count value")
    else Success(Repeat(Filled, filled) + Repeat(Empty, BarLength - filled))
  }

  const LinePrefix: string := "\rTranslating: ["

  /** The line `onProgress` writes: after the carriage return and label,
      the 40 cells of the bar with the filled ones first, then the
      percentage in decimal and a per-cent sign. It fails where the bar
      does. */
  function ProgressLine(progress: nat): (r: Result<string>)
    ensures r.Success? <==> FilledLength(progress) <= BarLength
    ensures r.Success? ==>
              && StartsWith(r.value, LinePrefix)
              && |r.value| == |LinePrefix| + BarLength + 3 + |NatToString(progress)|
              && (forall i :: |LinePrefix| <= i < |LinePrefix| + BarLength ==>
                    r.value[i] == if i < |LinePrefix| + FilledLength(progress) then Filled else Empty)
              && r.value[|LinePrefix| + BarLength..] == "] " + NatToString(progress) + "%"
  {
    var bar :- ProgressBar(progress);
    var line := LinePrefix + bar + "] " + NatToString(progress) + "%";
    assert line[..|LinePrefix|] == LinePrefix;
    assert forall i :: |LinePrefix| <= i < |LinePrefix| + BarLength ==> line[i] == bar[i - |LinePrefix|];
    assert line[|LinePrefix| + BarLength..] == "] " + NatToString(progress) + "%";
    Success(line)
  }

  /** Every percentage the translator reports draws a bar: an empty one at 0
      and a full one at 100. */
  lemma PercentagesDraw(progress: nat)
    requires progress <= 100
    ensures ProgressBar(progress).Success?
    ensures progress == 0 ==> FilledLength(progress) == 0
    ensures progress == 100 ==> FilledLength(progress) == BarLength
  {
  }

  /** More progress never draws fewer filled cells. */
  lemma FilledMonotone(p: nat, q: nat)
    requires p <= q
    ensures FilledLength(p) <= FilledLength(q)
  {
    LlmTranslator.DivMonotone(2 * (BarLength * p) + 100, 2 * (BarLength * q) + 100, 200);
  }
}
