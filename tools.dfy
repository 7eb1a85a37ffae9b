/** What the model keeps of one run of an external command-line tool (Ghostscript,
    pdfimages, qpdf): whether the binary was found, whether the process exited
    successfully, and what it printed. Locating the binaries and spawning the
    processes are outside the model; their outcomes are inputs. */
module Tools {
  datatype ToolRun =
    | NotFound
    | Failed(stdout: string, stderr: string)
    | Succeeded(stdout: string, stderr: string)
}
