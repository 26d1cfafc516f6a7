/** The argument checks at the start of `main` in md2respec.py: the input
    must be a markdown file and the output an HTML file, judged by the path's
    extension only. A rejected check stands for the `ValueError` `main` raises. */
module CommandLine {
  import opened TextOps

  datatype Outcome = Accepted | Rejected(message: string)

  const InputError: string := "Input file must be a markdown file"
  const OutputError: string := "Output file must be an HTML file"

  /** The output path argparse supplies when none is given. */
  const DefaultOutput: string := "spec.html"

  /** The two checks, the input path's first. */
  function CheckPaths(input: string, output: string): (r: Outcome)
    ensures r == Accepted <==> EndsWith(input, ".md") && EndsWith(output, ".html")
    ensures !EndsWith(input, ".md") ==> r == Rejected(InputError)
    ensures EndsWith(input, ".md") && !EndsWith(output, ".html") ==> r == Rejected(OutputError)
  {
    if !EndsWith(input, ".md") then Rejected(InputError)
    else if !EndsWith(output, ".html") then Rejected(OutputError)
    else Accepted
  }

  /** Without `--output_path`, exactly the markdown inputs are accepted. */
  lemma DefaultOutputAccepted(input: string)
    ensures CheckPaths(input, DefaultOutput) == Accepted <==> EndsWith(input, ".md")
  {
    assert DefaultOutput[|DefaultOutput| - 5..] == ".html";
  }
}
