/** The final script: `find_kmers` keeps ONE Counter for the whole
    directory, joins all lines below the header of each `.fasta` file into
    one sequence, counts the files whose sequence validates, and after the
    loop writes the table once, if it has more than one distinct k-mer, to
    a file named after the last listed entry. */
module FinalScript {
  import opened Dna
  import opened PyStr
  import opened KmerCount
  import opened Tsv
  import opened Assembly

  /** `''.join(line.strip() for line in lines[1:])`. */
  function Sequence(lines: seq<string>): string {
    JoinStripped(Body(lines))
  }

  /** The state the loop over the listing carries: the single Counter and
      the names reported as skipped. */
  datatype State = State(kmers: Counter, skipped: seq<string>)

  /** A listed `.fasta` file whose joined sequence fails validation. */
  predicate IsSkipped(e: Entry) {
    IsFasta(e) && !IsDnaSequence(Sequence(e.lines))
  }

  /** One iteration of the loop over the listing. */
  function Step(st: State, e: Entry, k: nat): State
  {
    if !IsFasta(e) then st
    else
      var s := Sequence(e.lines);
      if IsDnaSequence(s) then State(CountPass(st.kmers, s, k), st.skipped)
      else State(st.kmers, st.skipped + [e.name])
  }

  /** The state after the loop over the first `|dir|` listed entries. */
  function Scan(dir: seq<Entry>, k: nat): State
  {
    if dir == [] then State(Empty, []) else Step(Scan(dir[..|dir| - 1], k), dir[|dir| - 1], k)
  }

  /** The whole run: the loop, then at most one write. `filename` still
      names the last listed entry, whether or not it was a `.fasta` file. */
  function Run(dir: seq<Entry>, k: nat): Outcome
  {
    var st := Scan(dir, k);
    if |st.kmers.counts| > 1 then
      assert dir != [];
      Outcome(map[OutputName(dir[|dir| - 1].name) := LinesOf(Items(st.kmers))], st.skipped)
    else Outcome(map[], st.skipped)
  }

  /** `find_kmers` of the final script, over a listing given in order. */
  method FindKmers(dir: seq<Entry>, k: nat) returns (out: Outcome)
    ensures out == Run(dir, k)
  {
    var st := State(Empty, []);
    for i := 0 to |dir|
      invariant st == Scan(dir[..i], k)
    {
      assert dir[..i + 1][..i] == dir[..i];
      st := VisitEntry(st, dir[i], k);
    }
    assert dir[..|dir|] == dir;
    var written := map[];
    if |st.kmers.counts| > 1 {
      var outputFile := OutputName(dir[|dir| - 1].name);
      var lines := WriteOutput(st.kmers);
      written := map[outputFile := lines];
    }
    out := Outcome(written, st.skipped);
  }

  /** One iteration of the loop over the listing: a `.fasta` file whose
      joined sequence validates is counted into the single Counter, one
      that does not is reported, and any other entry is passed over. */
  method VisitEntry(st: State, e: Entry, k: nat) returns (st': State)
    ensures st' == Step(st, e, k)
  {
    st' := st;
    var filename := e.name;
    if EndsWith(filename, ".fasta") {
      var sequence := Sequence(e.lines);
      if IsDnaSequence(sequence) {
        var kmers := CountWindows(st.kmers, sequence, k);
        st' := State(kmers, st.skipped);
      } else {
        st' := State(st.kmers, st.skipped + [filename]);
      }
    }
  }

  // ---------------------------------------------------------------------
  // Properties

  /** The header line never contributes a character: replacing it leaves
      the sequence unchanged, and a file of at most one line has the empty
      sequence. */
  lemma HeaderNeverContributes(lines: seq<string>, header: string)
    requires lines != []
    ensures Sequence([header] + lines[1..]) == Sequence(lines)
    ensures |lines| == 1 ==> Sequence(lines) == ""
  {
    assert ([header] + lines[1..])[1..] == lines[1..];
  }

  /** A file holding a second record (a later line starting with '>') is
      never counted: the '>' survives the strip and fails validation. */
  lemma MultiRecordFileSkipped(lines: seq<string>, j: int)
    requires 1 <= j < |lines| && StartsWith(lines[j], ">")
    ensures !IsDnaSequence(Sequence(lines))
  {
    var body := Body(lines);
    assert body[j - 1] == lines[j];
    HeaderLineNotDna(lines[j]);
    JoinStrippedDna(body);
  }

  /** The table one listed entry contributes on its own: the counting pass
      over its sequence if it is a `.fasta` file that validates, otherwise
      nothing. */
  function FileTable(e: Entry, k: nat): Counter
  {
    if IsFasta(e) && IsDnaSequence(Sequence(e.lines)) then CountPass(Empty, Sequence(e.lines), k) else Empty
  }

  /** The sum over the listing of one word's count in each file's table. */
  function SumGet(dir: seq<Entry>, k: nat, w: string): nat
  {
    if dir == [] then 0 else SumGet(dir[..|dir| - 1], k, w) + Get(FileTable(dir[|dir| - 1], k), w)
  }

  /** The number of windows a listed entry contributes: those of its
      sequence if it is counted, otherwise none. */
  function FileWindows(e: Entry, k: nat): nat {
    if IsFasta(e) && IsDnaSequence(Sequence(e.lines)) then NumWindows(Sequence(e.lines), k) else 0
  }

  /** The number of windows of all counted files. */
  function SumWindows(dir: seq<Entry>, k: nat): nat {
    if dir == [] then 0 else SumWindows(dir[..|dir| - 1], k) + FileWindows(dir[|dir| - 1], k)
  }

  /** The single Counter stays well formed and holds only DNA keys. */
  lemma {:induction false} ScanValid(dir: seq<Entry>, k: nat)
    ensures Valid(Scan(dir, k).kmers) && KeysAreDna(Scan(dir, k).kmers)
  {
    if dir != [] {
      var pre, e := dir[..|dir| - 1], dir[|dir| - 1];
      ScanValid(pre, k);
      var c := Scan(pre, k).kmers;
      if IsFasta(e) && IsDnaSequence(Sequence(e.lines)) {
        CountPassSpec(c, Sequence(e.lines), k);
        CountPassKeepsDna(c, Sequence(e.lines), k);
      }
    }
  }

  /** One entry adds its own table to the Counter, word by word, and its
      number of windows to the total. */
  lemma StepSpec(st: State, e: Entry, k: nat)
    requires Valid(st.kmers)
    ensures forall w :: Get(Step(st, e, k).kmers, w) == Get(st.kmers, w) + Get(FileTable(e, k), w)
    ensures Total(Step(st, e, k).kmers) == Total(st.kmers) + FileWindows(e, k)
  {
    if IsFasta(e) && IsDnaSequence(Sequence(e.lines)) {
      var s := Sequence(e.lines);
      CountPassSpec(st.kmers, s, k);
      CountPassSpec(Empty, s, k);
    }
  }

  /** The single Counter accumulates across files: after the loop it is the
      pointwise sum of the per-file tables of all counted files, and its
      total is their total number of windows. */
  lemma {:induction false} ScanSpec(dir: seq<Entry>, k: nat)
    ensures Valid(Scan(dir, k).kmers) && KeysAreDna(Scan(dir, k).kmers)
    ensures forall w :: Get(Scan(dir, k).kmers, w) == SumGet(dir, k, w)
    ensures Total(Scan(dir, k).kmers) == SumWindows(dir, k)
  {
    ScanValid(dir, k);
    if dir != [] {
      var pre, e := dir[..|dir| - 1], dir[|dir| - 1];
      ScanSpec(pre, k);
      StepSpec(Scan(pre, k), e, k);
      assert Scan(dir, k) == Step(Scan(pre, k), e, k);
    }
  }

  /** A file that fails validation leaves the Counter unchanged and adds
      its own name to the diagnostics. */
  lemma InvalidFileLeavesCounter(dir: seq<Entry>, e: Entry, k: nat)
    requires IsSkipped(e)
    ensures Scan(dir + [e], k) == State(Scan(dir, k).kmers, Scan(dir, k).skipped + [e.name])
  {
    assert (dir + [e])[..|dir|] == dir;
  }

  /** One more listed entry adds its name to the diagnostics exactly when
      it is a `.fasta` file that fails validation. */
  lemma ScanSkippedStep(dir: seq<Entry>, e: Entry, k: nat)
    ensures Scan(dir + [e], k).skipped == Scan(dir, k).skipped + if IsSkipped(e) then [e.name] else []
  {
    assert (dir + [e])[..|dir|] == dir;
  }

  /** The diagnostics name exactly the listed `.fasta` files that fail
      validation. */
  lemma {:induction false} SkippedNames(dir: seq<Entry>, k: nat)
    ensures forall n :: n in Scan(dir, k).skipped <==>
              exists j :: 0 <= j < |dir| && IsSkipped(dir[j]) && dir[j].name == n
  {
    if dir != [] {
      var pre, e := dir[..|dir| - 1], dir[|dir| - 1];
      SkippedNames(pre, k);
      assert dir == pre + [e];
      ScanSkippedStep(pre, e, k);
      assert forall j :: 0 <= j < |pre| ==> pre[j] == dir[j];
    }
  }

  /** The positions of the listed `.fasta` files that fail validation. */
  ghost function SkippedAt(dir: seq<Entry>): set<nat> {
    set j: nat | j < |dir| && IsSkipped(dir[j])
  }

  /** One more listed entry adds its position exactly when it is skipped. */
  lemma SkippedAtStep(dir: seq<Entry>)
    requires dir != []
    ensures SkippedAt(dir) ==
              SkippedAt(dir[..|dir| - 1]) + if IsSkipped(dir[|dir| - 1]) then {|dir| - 1} else {}
  {
    var pre := dir[..|dir| - 1];
    forall j: nat ensures j in SkippedAt(dir) <==> j in SkippedAt(pre) || (j == |pre| && IsSkipped(dir[|pre|])) {
      if j < |pre| {
        assert pre[j] == dir[j];
      }
    }
  }

  /** There is one diagnostic per listed `.fasta` file that fails
      validation. */
  lemma {:induction false} SkippedCount(dir: seq<Entry>, k: nat)
    ensures |Scan(dir, k).skipped| == |SkippedAt(dir)|
  {
    if dir != [] {
      var pre, e := dir[..|dir| - 1], dir[|dir| - 1];
      SkippedCount(pre, k);
      assert dir == pre + [e];
      ScanSkippedStep(pre, e, k);
      SkippedAtStep(dir);
      assert |pre| !in SkippedAt(pre);
    } else {
      assert SkippedAt(dir) == {};
    }
  }

  /** The output: written exactly when the whole-directory table has more
      than one distinct k-mer, then as one file named after the last listed
      entry, whose text reads back as the table's entries in key order and
      those entries rebuild the table. */
  lemma RunSpec(dir: seq<Entry>, k: nat)
    ensures Run(dir, k).skipped == Scan(dir, k).skipped
    ensures Run(dir, k).written != map[] <==> |Scan(dir, k).kmers.counts| > 1
    ensures |Scan(dir, k).kmers.counts| > 1 ==>
              && dir != []
              && Run(dir, k).written.Keys == {OutputName(dir[|dir| - 1].name)}
              && Parse(Concat(Run(dir, k).written[OutputName(dir[|dir| - 1].name)])) == Some(Items(Scan(dir, k).kmers))
              && ToMap(Items(Scan(dir, k).kmers)) == Scan(dir, k).kmers.counts
  {
    var st := Scan(dir, k);
    ScanSpec(dir, k);
    if |st.kmers.counts| > 1 {
      var name := OutputName(dir[|dir| - 1].name);
      assert Run(dir, k).written[name] == LinesOf(Items(st.kmers));
      DnaKeysWritable(st.kmers);
      RoundTrip(Items(st.kmers));
      ItemsRecoverTable(st.kmers);
    }
  }

  /** The joined sequence of a file holding ">seq1", "ACGTA", "CGTAC". */
  lemma ExampleSequence()
    ensures Sequence([">seq1\n", "ACGTA\n", "CGTAC\n"]) == "ACGTACGTAC"
  {
    var body := Body([">seq1\n", "ACGTA\n", "CGTAC\n"]);
    assert body == ["ACGTA\n", "CGTAC\n"];
    assert RStrip("ACGTA\n") == "ACGTA";
    assert RStrip("CGTAC\n") == "CGTAC";
    assert body[..1] == ["ACGTA\n"];
    assert JoinStripped(["ACGTA\n"]) == "ACGTA";
  }

  /** The table of the worked example below. */
  const ExampleTable := Counter(["ACGTA", "CGTAC", "GTACG", "TACGT"], map["ACGTA" := 2, "CGTAC" := 2, "GTACG" := 1, "TACGT" := 1])

  /** The six windows of "ACGTACGTAC" for k = 5. */
  lemma ExampleWindows()
    ensures Windows("ACGTACGTAC", 5) == ["ACGTA", "CGTAC", "GTACG", "TACGT", "ACGTA", "CGTAC"]
  {
    var s := "ACGTACGTAC";
    var ws := Windows(s, 5);
    assert s == "ACGTA" + "CGTAC";
    assert ws[0] == s[0..5] == "ACGTA";
    assert ws[1] == s[1..6] == "CGTAC";
    assert ws[2] == s[2..7] == "GTACG";
    assert ws[3] == s[3..8] == "TACGT";
    assert ws[4] == s[4..9] == "ACGTA";
    assert ws[5] == s[5..10] == "CGTAC";
  }

  /** Those six windows hold four distinct 5-mers: ACGTA and CGTAC twice
      each, in first-occurrence order. */
  lemma ExampleCount()
    ensures CountPass(Empty, "ACGTACGTAC", 5) == ExampleTable
  {
    var ws := Windows("ACGTACGTAC", 5);
    ExampleWindows();
    var keys := ["ACGTA", "CGTAC", "GTACG", "TACGT"];
    var c1 := Counter(keys[..1], map["ACGTA" := 1]);
    var c2 := Counter(keys[..2], map["ACGTA" := 1, "CGTAC" := 1]);
    var c3 := Counter(keys[..3], map["ACGTA" := 1, "CGTAC" := 1, "GTACG" := 1]);
    var c4 := Counter(keys, map["ACGTA" := 1, "CGTAC" := 1, "GTACG" := 1, "TACGT" := 1]);
    var c5 := Counter(keys, map["ACGTA" := 2, "CGTAC" := 1, "GTACG" := 1, "TACGT" := 1]);
    ExampleAddsFirst(keys, c1, c2, c3, c4);
    ExampleAddsLast(keys, c4, c5);
    AddAllSteps([Empty, c1, c2, c3, c4, c5, ExampleTable], ws);
  }

  /** The four 5-mers of the example differ in their first base. */
  lemma ExampleDistinct()
    ensures "ACGTA" != "CGTAC" && "ACGTA" != "GTACG" && "ACGTA" != "TACGT"
    ensures "CGTAC" != "GTACG" && "CGTAC" != "TACGT" && "GTACG" != "TACGT"
  {
    assert "ACGTA"[0] == 'A' && "CGTAC"[0] == 'C' && "GTACG"[0] == 'G' && "TACGT"[0] == 'T';
  }

  lemma ExampleAddsFirst(keys: seq<string>, c1: Counter, c2: Counter, c3: Counter, c4: Counter)
    requires keys == ["ACGTA", "CGTAC", "GTACG", "TACGT"]
    requires c1 == Counter(keys[..1], map["ACGTA" := 1])
    requires c2 == Counter(keys[..2], map["ACGTA" := 1, "CGTAC" := 1])
    requires c3 == Counter(keys[..3], map["ACGTA" := 1, "CGTAC" := 1, "GTACG" := 1])
    requires c4 == Counter(keys, map["ACGTA" := 1, "CGTAC" := 1, "GTACG" := 1, "TACGT" := 1])
    ensures Add(Empty, "ACGTA") == c1 && Add(c1, "CGTAC") == c2 && Add(c2, "GTACG") == c3 && Add(c3, "TACGT") == c4
  {
    ExampleDistinct();
    assert keys[..2] == keys[..1] + ["CGTAC"];
    assert keys[..3] == keys[..2] + ["GTACG"];
    assert keys == keys[..3] + ["TACGT"];
  }

  lemma ExampleAddsLast(keys: seq<string>, c4: Counter, c5: Counter)
    requires keys == ["ACGTA", "CGTAC", "GTACG", "TACGT"]
    requires c4 == Counter(keys, map["ACGTA" := 1, "CGTAC" := 1, "GTACG" := 1, "TACGT" := 1])
    requires c5 == Counter(keys, map["ACGTA" := 2, "CGTAC" := 1, "GTACG" := 1, "TACGT" := 1])
    ensures Add(c4, "ACGTA") == c5 && Add(c5, "CGTAC") == ExampleTable
  {
    ExampleDistinct();
  }

  /** The loop over a listing of that one file, named "seq.fasta", with
      k = 5: the file is counted and nothing is skipped. */
  lemma ExampleScan()
    ensures Scan([Entry("seq.fasta", [">seq1\n", "ACGTA\n", "CGTAC\n"])], 5) == State(ExampleTable, [])
  {
    var e := Entry("seq.fasta", [">seq1\n", "ACGTA\n", "CGTAC\n"]);
    ExampleSequence();
    ExampleCount();
    assert EndsWith(e.name, ".fasta");
    var s := "ACGTACGTAC";
    assert IsDnaSequence(s) by {
      forall i | 0 <= i < |s| ensures IsBase(s[i]) {
      }
    }
    assert [e][..0] == [];
  }

  /** The lines written for the example table. */
  lemma ExampleLines()
    ensures LinesOf(Items(ExampleTable)) == ["ACGTA\t2\n", "CGTAC\t2\n", "GTACG\t1\n", "TACGT\t1\n"]
  {
    var items := Items(ExampleTable);
    assert items == [("ACGTA", 2), ("CGTAC", 2), ("GTACG", 1), ("TACGT", 1)];
    assert DecimalString(2) == "2" && DecimalString(1) == "1";
    var ls := LinesOf(items);
    assert ls[0] == Line("ACGTA", 2) == "ACGTA\t2\n";
    assert ls[1] == Line("CGTAC", 2) == "CGTAC\t2\n";
    assert ls[2] == Line("GTACG", 1) == "GTACG\t1\n";
    assert ls[3] == Line("TACGT", 1) == "TACGT\t1\n";
  }

  /** The example table has four distinct k-mers. */
  lemma ExampleSize()
    ensures |ExampleTable.counts| == 4
  {
    var c := ExampleTable;
    KeysCount(c.keys, c.counts.Keys);
  }

  /** "seq.fasta" is written to "seq_output.tsv". */
  lemma ExampleName()
    ensures OutputName("seq.fasta") == "seq_output.tsv"
  {
    var name := "seq.fasta";
    assert name[3..] == ".fasta";
    assert EndsWith(name, ".fasta");
    assert forall i :: 0 <= i < |name| ==> name[i] != '/';
    assert name[..3] == "seq" && name[..3][0] != '.';
    FastaOutputName(name);
    assert "seq" + "_output.tsv" == "seq_output.tsv";
  }

  /** The whole run on that listing: the four entries are written to
      "seq_output.tsv" in first-occurrence order. */
  lemma WorkedExample()
    ensures Run([Entry("seq.fasta", [">seq1\n", "ACGTA\n", "CGTAC\n"])], 5) ==
              Outcome(map["seq_output.tsv" := ["ACGTA\t2\n", "CGTAC\t2\n", "GTACG\t1\n", "TACGT\t1\n"]], [])
  {
    ExampleScan();
    ExampleSize();
    ExampleName();
    ExampleLines();
  }
}
