/** The input side shared by both variants of the script: a listed
    directory entry, the `.fasta` filter, the body lines below the header,
    the output file name, and what one run produces. */
module Assembly {
  import opened Dna
  import opened PyStr

  /** One entry of the directory listing: its name and, for a file that is
      read, the lines `file.readlines()` returns (newlines included). */
  datatype Entry = Entry(name: string, lines: seq<string>)

  /** What a run leaves behind: the lines written to each output file name,
      and one file name per "Skipping file ..." diagnostic, in order. */
  datatype Outcome = Outcome(written: map<string, seq<string>>, skipped: seq<string>)

  /** `filename.endswith(".fasta")`. */
  predicate IsFasta(e: Entry) {
    EndsWith(e.name, ".fasta")
  }

  /** `lines[1:]`: everything below the first (header) line. */
  function Body(lines: seq<string>): seq<string> {
    if lines == [] then [] else lines[1..]
  }

  /** `''.join(line.strip() for line in ls)`. */
  function JoinStripped(ls: seq<string>): string {
    if ls == [] then "" else JoinStripped(ls[..|ls| - 1]) + Strip(ls[|ls| - 1])
  }

  /** `os.path.splitext(filename)[0] + "_output.tsv"`. */
  function OutputName(name: string): string {
    SplitExtRoot(name) + "_output.tsv"
  }

  /** A `.fasta` file name with more than dots before the extension has its
      extension replaced by "_output.tsv". */
  lemma FastaOutputName(name: string)
    requires EndsWith(name, ".fasta") && '/' !in name
    requires !AllDots(name[..|name| - 6])
    ensures OutputName(name) == name[..|name| - 6] + "_output.tsv"
  {
    FastaRoot(name);
  }

  /** A `.fasta` name that is only dots before the extension keeps it:
      ".fasta" is written to ".fasta_output.tsv". */
  lemma DotsFastaOutputName(name: string)
    requires EndsWith(name, ".fasta") && '/' !in name
    requires AllDots(name[..|name| - 6])
    ensures OutputName(name) == name + "_output.tsv"
  {
    DotsFastaKept(name);
  }

  /** The joined lines are a DNA sequence exactly when every stripped line
      is one. */
  lemma {:induction false} JoinStrippedDna(ls: seq<string>)
    ensures IsDnaSequence(JoinStripped(ls)) <==> forall j :: 0 <= j < |ls| ==> IsDnaSequence(Strip(ls[j]))
  {
    if ls != [] {
      var pre := ls[..|ls| - 1];
      JoinStrippedDna(pre);
      DnaConcat(JoinStripped(pre), Strip(ls[|ls| - 1]));
      assert forall j :: 0 <= j < |pre| ==> pre[j] == ls[j];
    }
  }

  /** A line starting with '>' never strips to a DNA sequence. */
  lemma HeaderLineNotDna(line: string)
    requires StartsWith(line, ">")
    ensures !IsDnaSequence(Strip(line))
  {
    assert line[0] == '>';
    StripKeepsFirst(line);
    assert !IsBase(Strip(line)[0]);
  }
}
