# A verified model of the k-mer counting script

The repository holds one small Python script in two variants. Both scan a
directory of FASTA-like files, validate each sequence as DNA (only `A`, `C`,
`G`, `T`), count every substring of length k (a k-mer) with a
`collections.Counter`, and write `kmer<TAB>count` lines to a TSV file.

- **The final script** (`applicant_scripts_ME/section-1_ME_092023.py`) reads each
  `.fasta` file. It drops the first (header) line, strips and joins the rest,
  and skips the file with a diagnostic when the result is not DNA. It adds the
  windows of every valid file to ONE Counter for the whole directory. After
  the loop it writes that table once, and only when it has more than one
  distinct k-mer. The output file is named after the last listed directory
  entry, whatever that entry was.
- **The checkpoint variant**
  (`applicant_scripts_ME/.ipynb_checkpoints/section-1_ME_092023-checkpoint.py`)
  makes a fresh Counter per `.fasta` file. It cuts a new record at every line
  below the header that starts with `>`. It validates and counts each record
  on its own, with one diagnostic per invalid record. It writes each file's
  table, named after that file, when the table has at least one k-mer.

`is_dna_sequence` and `write_output` are the same text in both variants
(final lines 10-20 and 53-64, checkpoint lines 10-20 and 59-70). Each is
modelled once.

Modules, one per file:

- `Dna` (`dna.dfy`): the validator.
- `PyStr` (`pystr.dfy`): `str.strip`, `startswith`, `endswith`, `str.rfind`
  and POSIX `os.path.splitext`.
- `KmerCount` (`counter.dfy`): the Counter and the sliding-window pass.
- `Tsv` (`tsv.dfy`): the writer, plus a reader against which the writer is
  proved.
- `Assembly` (`assembly.dfy`): directory entries, the `.fasta` filter, the
  joined body, the output name, and the outcome of a run.
- `FinalScript` (`final_script.dfy`): the final script's `find_kmers`.
- `CheckpointScript` (`checkpoint_script.dfy`): the checkpoint variant's
  `find_kmers`.

How the model represents the script:

- A Counter is a datatype with the counts (a `map`) and its keys in
  first-insertion order. That is the order in which CPython's `Counter.items()`
  iterates, so the order of the written lines is modelled.
- The directory listing is a sequence of `Entry(name, lines)`, in listing
  order. The filter `filename.endswith(".fasta")` is part of the model.
- A run's result is an `Outcome`: a map from output file name to the lines
  written, and the file names of the "Skipping file ..." diagnostics, in order.
- The loops of `find_kmers` and `write_output` are methods with loops:
  - `FinalScript.FindKmers` and `VisitEntry`
  - `CheckpointScript.FindKmers`, `VisitEntry` and `CountFile`
  - `KmerCount.CountWindows`
  - `Tsv.WriteOutput`

  Each method is proved equal to a specification function. The properties
  are lemmas about those functions.

A worked example: on a file ">seq1", "ACGTA", "CGTAC" with k = 5, the code
counts the six windows of "ACGTACGTAC". ACGTA and CGTAC each occur twice,
so the table has four distinct 5-mers with counts 2, 2, 1 and 1.
`FinalScript.WorkedExample` proves the resulting output.

## Model

| member | source | states |
|---|---|---|
| Dna.RejectsNonBase | applicant_scripts_ME/section-1_ME_092023.py:20 | one character outside A, C, G, T anywhere makes the validator reject the string; the empty string is accepted |
| Dna.ValidatorExamples | applicant_scripts_ME/.ipynb_checkpoints/section-1_ME_092023-checkpoint.py:10-20 | "ACGT" and "GATTACA" are accepted; lower-case bases, an 'N' and a header line are rejected |
| Dna.DnaSlice | applicant_scripts_ME/section-1_ME_092023.py:43-44 | every substring of a validated sequence validates, so every counted window is DNA |
| Dna.DnaConcat | applicant_scripts_ME/section-1_ME_092023.py:42-43 | a joined string validates exactly when both parts do |
| Dna.DnaHasNoSeparator | applicant_scripts_ME/section-1_ME_092023.py:63-64 | a DNA string holds no tab and no newline, the two TSV separators |
| PyStr.LStripSpec | applicant_scripts_ME/section-1_ME_092023.py:42 | `lstrip` keeps a suffix, drops only whitespace, and the kept part does not start with whitespace |
| PyStr.RStripSpec | applicant_scripts_ME/section-1_ME_092023.py:42 | `rstrip` keeps a prefix, drops only whitespace, and the kept part does not end with whitespace |
| PyStr.StripSpec | applicant_scripts_ME/section-1_ME_092023.py:42 | `strip()` yields the slice left after cutting whitespace from both ends, with no whitespace at either end |
| PyStr.StripKeepsFirst | applicant_scripts_ME/.ipynb_checkpoints/section-1_ME_092023-checkpoint.py:47 | a line not starting with whitespace keeps its first character at the front after `strip()` |
| PyStr.RFind | applicant_scripts_ME/section-1_ME_092023.py:49 | the result is -1 or an index holding the character, with no occurrence after it |
| PyStr.SplitExtRoot | applicant_scripts_ME/section-1_ME_092023.py:49 | `splitext(p)[0]` is a prefix of p; if it is shorter, it is cut at a '.' after which the last path component has no '.' and before which that component has a non-dot; if it is the whole of p, no '.' of the last component follows a non-dot |
| PyStr.FastaRoot | applicant_scripts_ME/.ipynb_checkpoints/section-1_ME_092023-checkpoint.py:56 | a listed name ending in ".fasta" with a non-dot before the extension loses exactly those six characters |
| PyStr.DotsFastaKept | applicant_scripts_ME/.ipynb_checkpoints/section-1_ME_092023-checkpoint.py:56 | a name that is only dots before ".fasta" has no extension and is kept whole |
| KmerCount.WindowsMultiplicity | applicant_scripts_ME/section-1_ME_092023.py:44 | the comprehension `[s[i:i+k] for i in range(len(s)-k+1)]` holds each word exactly as many times as there are offsets i with `s[i:i+k]` equal to it |
| KmerCount.CountWindows | applicant_scripts_ME/section-1_ME_092023.py:44 | the loop over the window offsets computes the counting pass `CountPass` |
| KmerCount.AddSpec | applicant_scripts_ME/section-1_ME_092023.py:44 | adding one word keeps the table well formed, adds one to its total and to that word's count only, keeps the key order and adds the word as a key |
| KmerCount.AddAllGet | applicant_scripts_ME/section-1_ME_092023.py:44 | `Counter.update(ws)` adds to each word's count its multiplicity in ws |
| KmerCount.AddAllKeys | applicant_scripts_ME/section-1_ME_092023.py:44 | `Counter.update(ws)` keeps the old keys in front in order and adds exactly the words of ws as keys |
| KmerCount.AddAllTotal | applicant_scripts_ME/section-1_ME_092023.py:44 | `Counter.update(ws)` keeps the table well formed and adds `len(ws)` to the sum of counts |
| KmerCount.AddAllSpec | applicant_scripts_ME/section-1_ME_092023.py:44 | the three facts above together |
| KmerCount.CountPassSpec | applicant_scripts_ME/section-1_ME_092023.py:44 | one pass adds to each word's count exactly its number of offsets in s; the total grows by `len(s)-k+1`, or by nothing when k > len(s), when the table is unchanged; every new key has length k and is a window of s; old keys keep their order in front |
| KmerCount.CountPassKeepsDna | applicant_scripts_ME/section-1_ME_092023.py:43-44 | a pass over a validated sequence adds only DNA keys |
| Tsv.DecimalString | applicant_scripts_ME/section-1_ME_092023.py:64 | `f"{count}"` is a non-empty run of digits without a leading zero |
| Tsv.DecimalRoundTrip | applicant_scripts_ME/section-1_ME_092023.py:64 | reading back a written count gives the count |
| Tsv.ParseLine | applicant_scripts_ME/section-1_ME_092023.py:64 | one written line followed by any text reads back as its (kmer, count) pair followed by what that text reads as |
| Tsv.RoundTrip | applicant_scripts_ME/section-1_ME_092023.py:62-64 | entries whose keys hold no tab or newline, written one line each and read back, give the same entries in the same order |
| Tsv.ItemsRecoverTable | applicant_scripts_ME/section-1_ME_092023.py:63 | `kmers.items()` has one entry per key, and as a dictionary the entries equal the counts |
| Tsv.WriteOutput | applicant_scripts_ME/section-1_ME_092023.py:53-64 | one line `key\tcount\n` per table entry in key order; when no key holds a separator the text reads back as exactly the table's entries |
| Tsv.DnaKeysWritable | applicant_scripts_ME/section-1_ME_092023.py:63-64 | a table of DNA keys has only writable keys |
| Assembly.FastaOutputName | applicant_scripts_ME/.ipynb_checkpoints/section-1_ME_092023-checkpoint.py:56 | a `.fasta` name with a non-dot before the extension is written to the name without ".fasta" followed by "_output.tsv" |
| Assembly.DotsFastaOutputName | applicant_scripts_ME/.ipynb_checkpoints/section-1_ME_092023-checkpoint.py:56 | ".fasta" itself (only dots before the extension) is written to ".fasta_output.tsv" |
| Assembly.JoinStrippedDna | applicant_scripts_ME/section-1_ME_092023.py:42-43 | the joined stripped lines validate exactly when every stripped line does |
| Assembly.HeaderLineNotDna | applicant_scripts_ME/section-1_ME_092023.py:42-43 | a line starting with '>' never strips to DNA |
| FinalScript.FindKmers | applicant_scripts_ME/section-1_ME_092023.py:22-50 | the loop over the listing and the single write compute `Run` |
| FinalScript.VisitEntry | applicant_scripts_ME/section-1_ME_092023.py:39-46 | one iteration computes one `Step`: a valid `.fasta` file is counted into the single Counter, an invalid one adds a diagnostic, and any other entry changes nothing |
| FinalScript.HeaderNeverContributes | applicant_scripts_ME/section-1_ME_092023.py:42 | the header line never contributes a character: replacing it changes nothing, and a one-line file has the empty sequence |
| FinalScript.MultiRecordFileSkipped | applicant_scripts_ME/section-1_ME_092023.py:42-46 | a file with a later line starting with '>' fails validation as a whole |
| FinalScript.ScanValid | applicant_scripts_ME/section-1_ME_092023.py:32-44 | the single Counter stays well formed and holds only DNA keys |
| FinalScript.StepSpec | applicant_scripts_ME/section-1_ME_092023.py:39-46 | one listed entry adds its own file's table to every count and its number of windows to the total; a skipped or non-`.fasta` entry adds nothing |
| FinalScript.ScanSpec | applicant_scripts_ME/section-1_ME_092023.py:32-44 | the final table is the pointwise sum of the per-file tables of all valid `.fasta` files, and its total is their total number of windows |
| FinalScript.InvalidFileLeavesCounter | applicant_scripts_ME/section-1_ME_092023.py:43-46 | a `.fasta` file that fails validation leaves the Counter unchanged and adds one diagnostic naming it |
| FinalScript.SkippedNames | applicant_scripts_ME/section-1_ME_092023.py:38-46 | a name is in the diagnostics exactly when a listed `.fasta` file of that name fails validation |
| FinalScript.SkippedCount | applicant_scripts_ME/section-1_ME_092023.py:38-46 | there is exactly one diagnostic per listed `.fasta` file that fails validation |
| FinalScript.RunSpec | applicant_scripts_ME/section-1_ME_092023.py:48-50 | output is written exactly when the table has more than one distinct k-mer, as one file named after the last listed entry, whose text reads back as the table's entries, which rebuild the table |
| FinalScript.ExampleSequence | applicant_scripts_ME/section-1_ME_092023.py:42 | ">seq1", "ACGTA", "CGTAC" join to "ACGTACGTAC" |
| FinalScript.ExampleWindows | applicant_scripts_ME/section-1_ME_092023.py:44 | the six 5-windows of "ACGTACGTAC" |
| FinalScript.ExampleCount | applicant_scripts_ME/section-1_ME_092023.py:44 | they give four distinct 5-mers, ACGTA and CGTAC twice each, in first-occurrence order |
| FinalScript.ExampleScan | applicant_scripts_ME/section-1_ME_092023.py:38-46 | a listing of that one file is counted and not skipped |
| FinalScript.ExampleLines | applicant_scripts_ME/section-1_ME_092023.py:63-64 | the four lines written for that table |
| FinalScript.ExampleSize | applicant_scripts_ME/section-1_ME_092023.py:48 | that table has four distinct k-mers, so it is written |
| FinalScript.ExampleName | applicant_scripts_ME/section-1_ME_092023.py:49 | "seq.fasta" is written to "seq_output.tsv" |
| FinalScript.WorkedExample | applicant_scripts_ME/section-1_ME_092023.py:22-50 | the whole run on that listing writes those four lines to "seq_output.tsv" and reports nothing |
| CheckpointScript.FindKmers | applicant_scripts_ME/.ipynb_checkpoints/section-1_ME_092023-checkpoint.py:22-57 | the loop over the listing computes `Run` |
| CheckpointScript.VisitEntry | applicant_scripts_ME/.ipynb_checkpoints/section-1_ME_092023-checkpoint.py:33-57 | one iteration computes one `Step`: a `.fasta` file is counted on a fresh Counter and written if it has a k-mer; other entries change nothing |
| CheckpointScript.CountFile | applicant_scripts_ME/.ipynb_checkpoints/section-1_ME_092023-checkpoint.py:34-53 | the line loop and the last record compute the file's table `FileTable` and append one diagnostic per invalid record |
| CheckpointScript.Headers | applicant_scripts_ME/.ipynb_checkpoints/section-1_ME_092023-checkpoint.py:39-42 | the header positions of a body are exactly the lines that start with '>', listed in increasing order |
| CheckpointScript.SplitBodySegments | applicant_scripts_ME/.ipynb_checkpoints/section-1_ME_092023-checkpoint.py:39-47 | after the line loop, record i closed so far is the stripped lines strictly between header i-1 (or the top) and header i, joined; the accumulator holds the lines after the last header |
| CheckpointScript.RecordsBetweenHeaders | applicant_scripts_ME/.ipynb_checkpoints/section-1_ME_092023-checkpoint.py:38-51 | a file's records, the last one included, are exactly the joined stripped runs of body lines between consecutive header lines, bounded by the top and the end of the body |
| CheckpointScript.RecordsExample | applicant_scripts_ME/.ipynb_checkpoints/section-1_ME_092023-checkpoint.py:38-51 | a file ">h", "AC", ">x", "GT" splits into the records "AC" and "GT" |
| CheckpointScript.SplitBodyCount | applicant_scripts_ME/.ipynb_checkpoints/section-1_ME_092023-checkpoint.py:39-47 | the number of closed records is the number of header lines in the body |
| CheckpointScript.SplitBodyFlatten | applicant_scripts_ME/.ipynb_checkpoints/section-1_ME_092023-checkpoint.py:39-47 | the closed records and the accumulator, put together, are the stripped non-header lines |
| CheckpointScript.RecordsSpec | applicant_scripts_ME/.ipynb_checkpoints/section-1_ME_092023-checkpoint.py:38-51 | a file has one record more than it has header lines below the first line, and its records put together lose no sequence line and take no header character |
| CheckpointScript.NoHeadersKeepsLines | applicant_scripts_ME/.ipynb_checkpoints/section-1_ME_092023-checkpoint.py:40 | a body with no header line is all sequence lines |
| CheckpointScript.SingleRecordAgrees | applicant_scripts_ME/.ipynb_checkpoints/section-1_ME_092023-checkpoint.py:39-51 | on a file with no header below the first line, the only record is the final script's joined sequence |
| CheckpointScript.CountRecordsSpec | applicant_scripts_ME/.ipynb_checkpoints/section-1_ME_092023-checkpoint.py:41-53 | processing records adds to each count its offsets in the valid records only, and to the total their numbers of windows; every new key is a window of one valid record |
| CheckpointScript.FileTableSpec | applicant_scripts_ME/.ipynb_checkpoints/section-1_ME_092023-checkpoint.py:34-53 | a file's table is the sum over its valid records r of their window counts, with total the sum of `max(0, len(r)-k+1)`; no counted k-mer spans a record boundary |
| CheckpointScript.RecordSkippedOrEmpty | applicant_scripts_ME/.ipynb_checkpoints/section-1_ME_092023-checkpoint.py:41-45 | an invalid record adds nothing and one diagnostic; an empty record (two headers in a row) is valid and, for k >= 1, adds nothing |
| CheckpointScript.RepeatSpec | applicant_scripts_ME/.ipynb_checkpoints/section-1_ME_092023-checkpoint.py:44 | n diagnostics all naming the file |
| CheckpointScript.WrittenFromOwnTable | applicant_scripts_ME/.ipynb_checkpoints/section-1_ME_092023-checkpoint.py:55-57 | every written file is the TSV of one listed `.fasta` file's own table, under that file's output name, and that table has a k-mer |
| CheckpointScript.EveryCountedFileWritten | applicant_scripts_ME/.ipynb_checkpoints/section-1_ME_092023-checkpoint.py:55-57 | every listed `.fasta` file whose table has a k-mer gets its output file |
| CheckpointScript.SkippedNames | applicant_scripts_ME/.ipynb_checkpoints/section-1_ME_092023-checkpoint.py:41-53 | a name is in the diagnostics exactly when a listed `.fasta` file of that name holds an invalid record; there is one diagnostic per invalid record |
| CheckpointScript.SkippedPerName | applicant_scripts_ME/.ipynb_checkpoints/section-1_ME_092023-checkpoint.py:41-53 | each name occurs in the diagnostics exactly as often as the listed `.fasta` files of that name hold invalid records |
| CheckpointScript.NoLeak | applicant_scripts_ME/.ipynb_checkpoints/section-1_ME_092023-checkpoint.py:34 | a fresh Counter per file: the file's output is its own table whatever was listed before, and every other output is unchanged |
| CheckpointScript.OutputReadsBack | applicant_scripts_ME/.ipynb_checkpoints/section-1_ME_092023-checkpoint.py:59-70 | every written table reads back as its entries in key order, which rebuild the table |

## Left out

- The command line (`argparse`, the default `kmer_length` of 5) and `os.makedirs` of the output directory are glue around `find_kmers`.
- `os.listdir`, `open` and `readlines` are not modelled. The listing, in its order, and each file's lines are inputs. Unreadable entries (a directory named `x.fasta`, a decoding error) are not modelled.
- File writes and `os.path.join` with the output path are not modelled. The result maps each output file name to its lines, and a later write under the same name replaces the earlier one.
- The `print` diagnostics are modelled as the file name each one mentions, in order. Their fixed text is not modelled.
- A negative `kmer_length`: k is a natural number. Zero is modelled: there are `len+1` empty windows.
- `os.path.splitext` is modelled for POSIX paths only ('/' as the separator).
- The unused `import re`.
- `Tsv.Parse` and its separator search `Tsv.IndexOf` form a reader defined here to state what the written text means. The scripts never read their output.
