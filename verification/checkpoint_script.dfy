/** The checkpoint variant: `find_kmers` makes a fresh Counter for each
    `.fasta` file, cuts a new record at every line below the header that
    starts with '>', validates and counts each record on its own, and
    writes the file's table if it has at least one k-mer. */
module CheckpointScript {
  import opened Dna
  import opened PyStr
  import opened KmerCount
  import opened Tsv
  import opened Assembly
  import FinalScript

  /** The state of the loop over `lines[1:]`, as far as records go: the
      records closed so far and the `sequence` accumulator. */
  datatype Split = Split(closed: seq<string>, current: string)

  /** The records of a body as the line loop builds them: a line starting
      with '>' closes the current record and resets the accumulator, any
      other line is stripped and appended. */
  function SplitBody(body: seq<string>): Split {
    if body == [] then Split([], "")
    else
      var sp := SplitBody(body[..|body| - 1]);
      var line := body[|body| - 1];
      if StartsWith(line, ">") then Split(sp.closed + [sp.current], "")
      else Split(sp.closed, sp.current + Strip(line))
  }

  /** All records of a file, the one after the last header included. */
  function Records(lines: seq<string>): seq<string> {
    var sp := SplitBody(Body(lines));
    sp.closed + [sp.current]
  }

  /** One record processed: counted if it validates, otherwise left out. */
  function CountRecord(c: Counter, r: string, k: nat): Counter
  {
    if IsDnaSequence(r) then CountPass(c, r, k) else c
  }

  /** The records processed in order into one table. */
  function CountRecords(c: Counter, rs: seq<string>, k: nat): Counter
  {
    if rs == [] then c else CountRecord(CountRecords(c, rs[..|rs| - 1], k), rs[|rs| - 1], k)
  }

  /** The number of records that fail validation. */
  function InvalidCount(rs: seq<string>): nat {
    if rs == [] then 0 else InvalidCount(rs[..|rs| - 1]) + if IsDnaSequence(rs[|rs| - 1]) then 0 else 1
  }

  /** The per-file table: a fresh Counter filled from that file's records. */
  function FileTable(lines: seq<string>, k: nat): Counter
  {
    CountRecords(Empty, Records(lines), k)
  }

  /** `n` copies of a diagnostic naming `name`. */
  function Repeat(name: string, n: nat): seq<string> {
    if n == 0 then [] else Repeat(name, n - 1) + [name]
  }

  /** One iteration of the loop over the listing. */
  function Step(out: Outcome, e: Entry, k: nat): Outcome
  {
    if !IsFasta(e) then out
    else
      var table := FileTable(e.lines, k);
      Outcome(
        if |table.counts| > 0 then out.written[OutputName(e.name) := LinesOf(Items(table))] else out.written,
        out.skipped + Repeat(e.name, InvalidCount(Records(e.lines))))
  }

  /** The whole run over a listing. */
  function Run(dir: seq<Entry>, k: nat): Outcome
  {
    if dir == [] then Outcome(map[], []) else Step(Run(dir[..|dir| - 1], k), dir[|dir| - 1], k)
  }

  /** `find_kmers` of the checkpoint variant, over a listing given in
      order. */
  method FindKmers(dir: seq<Entry>, k: nat) returns (out: Outcome)
    ensures out == Run(dir, k)
  {
    out := Outcome(map[], []);
    for i := 0 to |dir|
      invariant out == Run(dir[..i], k)
    {
      assert dir[..i + 1] == dir[..i] + [dir[i]];
      RunSnoc(dir[..i], dir[i], k);
      out := VisitEntry(out, dir[i], k);
    }
    assert dir[..|dir|] == dir;
  }

  /** One iteration of the loop over the listing: a `.fasta` file is
      counted on a fresh Counter and its table written if it has a
      k-mer; any other entry is passed over. */
  method VisitEntry(out: Outcome, e: Entry, k: nat) returns (out': Outcome)
    ensures out' == Step(out, e, k)
  {
    out' := out;
    var filename := e.name;
    if EndsWith(filename, ".fasta") {
      var kmers, skipped := CountFile(filename, e.lines, k, out.skipped);
      StepFasta(out, e, k, kmers, skipped);
      var written := out.written;
      if |kmers.counts| > 0 {
        var outputFile := OutputName(filename);
        var lines := WriteOutput(kmers);
        written := written[outputFile := lines];
      }
      out' := Outcome(written, skipped);
    }
  }

  /** The step for a `.fasta` file, in terms of its table and its
      diagnostics. */
  lemma StepFasta(out: Outcome, e: Entry, k: nat, table: Counter, skipped: seq<string>)
    requires IsFasta(e) && table == FileTable(e.lines, k)
    requires skipped == out.skipped + Repeat(e.name, InvalidCount(Records(e.lines)))
    ensures Step(out, e, k) ==
              Outcome(if |table.counts| > 0 then out.written[OutputName(e.name) := LinesOf(Items(table))] else out.written, skipped)
  {
  }

  /** The body of the loop for one `.fasta` file: a fresh Counter, the
      line loop over `lines[1:]`, and the last record. Each invalid record
      appends one diagnostic naming the file. */
  method CountFile(filename: string, lines: seq<string>, k: nat, skipped: seq<string>)
    returns (kmers: Counter, skipped': seq<string>)
    ensures kmers == FileTable(lines, k)
    ensures skipped' == skipped + Repeat(filename, InvalidCount(Records(lines)))
  {
    kmers := Empty;
    skipped' := skipped;
    var body := Body(lines);
    var sequence := "";
    ghost var closed := [];
    for j := 0 to |body|
      invariant SplitBody(body[..j]) == Split(closed, sequence)
      invariant kmers == CountRecords(Empty, closed, k)
      invariant skipped' == skipped + Repeat(filename, InvalidCount(closed))
    {
      var line := body[j];
      SplitBodyStep(body, j);
      if StartsWith(line, ">") {
        CloseRecord(closed, sequence, k, filename);
        if IsDnaSequence(sequence) {
          kmers := CountWindows(kmers, sequence, k);
        } else {
          skipped' := skipped' + [filename];
        }
        closed := closed + [sequence];
        sequence := "";
      } else {
        sequence := sequence + Strip(line);
      }
    }
    assert body[..|body|] == body;
    assert Records(lines) == closed + [sequence];
    CloseRecord(closed, sequence, k, filename);
    if IsDnaSequence(sequence) {
      kmers := CountWindows(kmers, sequence, k);
    } else {
      skipped' := skipped' + [filename];
    }
  }

  /** One more line of the body: a header closes the record, any other
      line extends it. */
  lemma SplitBodyStep(body: seq<string>, j: nat)
    requires j < |body|
    ensures SplitBody(body[..j + 1]) ==
      var sp := SplitBody(body[..j]);
      if StartsWith(body[j], ">") then Split(sp.closed + [sp.current], "")
      else Split(sp.closed, sp.current + Strip(body[j]))
  {
    assert body[..j + 1][..j] == body[..j];
  }

  /** Closing one more record processes it after the earlier ones, and
      adds one diagnostic when it fails validation. */
  lemma CloseRecord(closed: seq<string>, r: string, k: nat, name: string)
    ensures CountRecords(Empty, closed + [r], k) == CountRecord(CountRecords(Empty, closed, k), r, k)
    ensures InvalidCount(closed + [r]) == InvalidCount(closed) + if IsDnaSequence(r) then 0 else 1
    ensures Repeat(name, InvalidCount(closed + [r])) ==
              Repeat(name, InvalidCount(closed)) + if IsDnaSequence(r) then [] else [name]
  {
    var rs := closed + [r];
    assert rs[..|rs| - 1] == closed && rs[|rs| - 1] == r;
    var n := InvalidCount(closed);
    if !IsDnaSequence(r) {
      assert InvalidCount(rs) == n + 1;
      assert Repeat(name, n + 1) == Repeat(name, n) + [name];
    }
  }

  // ---------------------------------------------------------------------
  // Records

  /** The number of lines that start with '>'. */
  function HeaderCount(body: seq<string>): nat {
    if body == [] then 0 else HeaderCount(body[..|body| - 1]) + if StartsWith(body[|body| - 1], ">") then 1 else 0
  }

  /** The lines that do not start with '>', in order. */
  function SequenceLines(body: seq<string>): seq<string> {
    if body == [] then []
    else SequenceLines(body[..|body| - 1]) + if StartsWith(body[|body| - 1], ">") then [] else [body[|body| - 1]]
  }

  /** The records one after the other. */
  function Flatten(rs: seq<string>): string {
    if rs == [] then "" else Flatten(rs[..|rs| - 1]) + rs[|rs| - 1]
  }

  lemma {:induction false} SplitBodyCount(body: seq<string>)
    ensures |SplitBody(body).closed| == HeaderCount(body)
  {
    if body != [] {
      SplitBodyCount(body[..|body| - 1]);
    }
  }

  lemma {:induction false} SplitBodyFlatten(body: seq<string>)
    ensures Flatten(SplitBody(body).closed) + SplitBody(body).current == JoinStripped(SequenceLines(body))
  {
    if body != [] {
      var pre, line := body[..|body| - 1], body[|body| - 1];
      SplitBodyFlatten(pre);
      var sp := SplitBody(pre);
      if StartsWith(line, ">") {
        var closed := sp.closed + [sp.current];
        assert closed[..|sp.closed|] == sp.closed;
        assert Flatten(closed) == Flatten(sp.closed) + sp.current;
        assert SequenceLines(body) == SequenceLines(pre);
      } else {
        var ls := SequenceLines(pre) + [line];
        assert SequenceLines(body) == ls;
        assert ls[..|ls| - 1] == SequenceLines(pre);
        assert JoinStripped(ls) == JoinStripped(SequenceLines(pre)) + Strip(line);
      }
    }
  }

  /** A file has one record more than it has header lines below its first
      line, and its records, put back together, are exactly the stripped
      lines that are not headers: no header line contributes a character
      and no sequence line is lost. */
  lemma RecordsSpec(lines: seq<string>)
    ensures |Records(lines)| == 1 + HeaderCount(Body(lines))
    ensures Flatten(Records(lines)) == JoinStripped(SequenceLines(Body(lines)))
  {
    var sp := SplitBody(Body(lines));
    SplitBodyCount(Body(lines));
    SplitBodyFlatten(Body(lines));
    assert (sp.closed + [sp.current])[..|sp.closed|] == sp.closed;
  }

  /** The positions of the header lines of a body, in order. */
  function Headers(body: seq<string>): (hs: seq<nat>)
    ensures forall i :: 0 <= i < |hs| ==> hs[i] < |body| && StartsWith(body[hs[i]], ">")
    ensures forall i, j :: 0 <= i < j < |hs| ==> hs[i] < hs[j]
    ensures forall j :: 0 <= j < |body| && StartsWith(body[j], ">") ==> j in hs
  {
    if body == [] then []
    else
      var n := |body| - 1;
      assert forall i :: 0 <= i < n ==> body[..n][i] == body[i];
      Headers(body[..n]) + if StartsWith(body[n], ">") then [n] else []
  }

  /** Where record `i` starts: at the top of the body, or on the line
      below the `i`-th header line. */
  function RecordStart(hs: seq<nat>, i: nat): nat
    requires i <= |hs|
  {
    if i == 0 then 0 else hs[i - 1] + 1
  }

  /** Where record `i` ends: at the next header line, or at the end of a
      body of `n` lines. */
  function RecordEnd(hs: seq<nat>, i: nat, n: nat): nat
    requires i <= |hs|
  {
    if i == |hs| then n else hs[i]
  }

  /** The stripped lines `a .. b-1` of a body, joined; empty when there
      are none. */
  function Segment(body: seq<string>, a: nat, b: nat): string
    decreases b
  {
    if a < b <= |body| then Segment(body, a, b - 1) + Strip(body[b - 1]) else ""
  }

  /** The records closed so far and the accumulator are the segments
      between the header lines `hs`. */
  ghost predicate Segmented(body: seq<string>, sp: Split, hs: seq<nat>) {
    && |sp.closed| == |hs|
    && (forall i {:trigger sp.closed[i]} :: 0 <= i < |hs| ==> sp.closed[i] == Segment(body, RecordStart(hs, i), hs[i]))
    && sp.current == Segment(body, RecordStart(hs, |hs|), |body|)
  }

  /** A segment is the joined stripped slice. */
  lemma {:induction false} SegmentIsJoin(body: seq<string>, a: nat, b: nat)
    requires a <= b <= |body|
    ensures Segment(body, a, b) == JoinStripped(body[a..b])
    decreases b
  {
    if a < b {
      SegmentIsJoin(body, a, b - 1);
      var t := body[a..b];
      assert t[..|t| - 1] == body[a..b - 1];
    }
  }

  lemma {:induction false} SegmentExtend(pre: seq<string>, l: string, a: nat, b: nat)
    requires b <= |pre|
    ensures Segment(pre + [l], a, b) == Segment(pre, a, b)
    decreases b
  {
    if a < b {
      SegmentExtend(pre, l, a, b - 1);
      assert (pre + [l])[b - 1] == pre[b - 1];
    }
  }

  lemma SegmentGrow(pre: seq<string>, l: string, a: nat)
    requires a <= |pre|
    ensures Segment(pre + [l], a, |pre| + 1) == Segment(pre, a, |pre|) + Strip(l)
  {
    SegmentExtend(pre, l, a, |pre|);
    assert (pre + [l])[|pre|] == l;
  }

  lemma SegmentedHeader(pre: seq<string>, l: string, sp: Split, hp: seq<nat>)
    requires Segmented(pre, sp, hp)
    requires forall i :: 0 <= i < |hp| ==> hp[i] < |pre|
    ensures Segmented(pre + [l], Split(sp.closed + [sp.current], ""), hp + [|pre|])
  {
    var body, hs := pre + [l], hp + [|pre|];
    ClosedKept(pre, l, sp, hp, sp.closed + [sp.current], hs);
    assert RecordStart(hs, |hs|) == |body|;
  }

  lemma ClosedKept(pre: seq<string>, l: string, sp: Split, hp: seq<nat>, closed: seq<string>, hs: seq<nat>)
    requires Segmented(pre, sp, hp)
    requires forall i :: 0 <= i < |hp| ==> hp[i] < |pre|
    requires closed == sp.closed + [sp.current] && hs == hp + [|pre|]
    ensures forall i {:trigger closed[i]} :: 0 <= i < |hs| ==> closed[i] == Segment(pre + [l], RecordStart(hs, i), hs[i])
  {
    forall i | 0 <= i < |hs|
      ensures closed[i] == Segment(pre + [l], RecordStart(hs, i), hs[i])
    {
      if i < |hp| {
        SegmentKept(pre, l, sp.closed[i], RecordStart(hp, i), hp[i]);
        assert RecordStart(hs, i) == RecordStart(hp, i);
      } else {
        SegmentKept(pre, l, sp.current, RecordStart(hp, |hp|), |pre|);
        assert RecordStart(hs, i) == RecordStart(hp, |hp|);
      }
    }
  }

  lemma SegmentKept(pre: seq<string>, l: string, r: string, a: nat, b: nat)
    requires b <= |pre| && r == Segment(pre, a, b)
    ensures r == Segment(pre + [l], a, b)
  {
    SegmentExtend(pre, l, a, b);
  }

  lemma SegmentedLine(pre: seq<string>, l: string, sp: Split, hp: seq<nat>)
    requires Segmented(pre, sp, hp)
    requires forall i :: 0 <= i < |hp| ==> hp[i] < |pre|
    ensures Segmented(pre + [l], Split(sp.closed, sp.current + Strip(l)), hp)
  {
    var sp' := Split(sp.closed, sp.current + Strip(l));
    forall i | 0 <= i < |hp| ensures sp'.closed[i] == Segment(pre + [l], RecordStart(hp, i), hp[i]) {
      SegmentKept(pre, l, sp.closed[i], RecordStart(hp, i), hp[i]);
    }
    var a := RecordStart(hp, |hp|);
    assert a <= |pre| by {
      if |hp| > 0 {
        assert hp[|hp| - 1] < |pre|;
      }
    }
    SegmentGrow(pre, l, a);
    assert sp'.current == Segment(pre + [l], a, |pre + [l]|);
  }

  /** The line loop closes one record per header line, and each record is
      the stripped lines strictly between two consecutive header lines. */
  lemma {:induction false} SplitBodySegments(body: seq<string>)
    ensures Segmented(body, SplitBody(body), Headers(body))
  {
    if body != [] {
      var n := |body| - 1;
      var pre, l := body[..n], body[n];
      SplitBodySegments(pre);
      var sp, hp := SplitBody(pre), Headers(pre);
      assert body == pre + [l];
      if StartsWith(l, ">") {
        assert SplitBody(body) == Split(sp.closed + [sp.current], "");
        assert Headers(body) == hp + [|pre|];
        SegmentedHeader(pre, l, sp, hp);
      } else {
        assert SplitBody(body) == Split(sp.closed, sp.current + Strip(l));
        assert Headers(body) == hp;
        SegmentedLine(pre, l, sp, hp);
      }
    }
  }

  /** Each record of a file is the stripped lines strictly between two
      consecutive header lines of its body, joined; the top and the end of
      the body bound the first and the last record. */
  lemma RecordsBetweenHeaders(lines: seq<string>)
    ensures |Records(lines)| == |Headers(Body(lines))| + 1
    ensures forall i :: 0 <= i <= |Headers(Body(lines))| ==>
              Records(lines)[i] ==
                JoinStripped(Body(lines)[RecordStart(Headers(Body(lines)), i)..RecordEnd(Headers(Body(lines)), i, |Body(lines)|)])
  {
    var body := Body(lines);
    var hs, sp := Headers(body), SplitBody(body);
    SplitBodySegments(body);
    forall i | 0 <= i <= |hs|
      ensures Records(lines)[i] == JoinStripped(body[RecordStart(hs, i)..RecordEnd(hs, i, |body|)])
    {
      SegmentIsJoin(body, RecordStart(hs, i), RecordEnd(hs, i, |body|));
      if i < |hs| {
        assert Records(lines)[i] == sp.closed[i];
        assert sp.closed[i] == Segment(body, RecordStart(hs, i), hs[i]);
      } else {
        assert Records(lines)[i] == sp.current;
      }
    }
  }

  /** The split of a two-record file: each header starts a new record. */
  lemma RecordsExample()
    ensures Records([">h\n", "AC\n", ">x\n", "GT\n"]) == ["AC", "GT"]
  {
    var lines := [">h\n", "AC\n", ">x\n", "GT\n"];
    var body := Body(lines);
    assert body == ["AC\n", ">x\n", "GT\n"];
    ExampleRecordLines();
    assert body[0][0] == 'A' && body[2][0] == 'G';
    assert SplitBody(body[..1]) == Split([], "AC") by {
      assert body[..1][..0] == [];
    }
    assert SplitBody(body[..2]) == Split(["AC"], "") by {
      assert body[..2][..1] == body[..1];
    }
    assert SplitBody(body) == Split(["AC"], "GT") by {
      assert body[..2] == body[..|body| - 1];
    }
  }

  lemma ExampleRecordLines()
    ensures JoinStripped(["AC\n"]) == "AC" && JoinStripped(["GT\n"]) == "GT"
  {
    assert RStrip("AC\n") == "AC";
    assert RStrip("GT\n") == "GT";
  }

  lemma {:induction false} NoHeadersKeepsLines(body: seq<string>)
    requires HeaderCount(body) == 0
    ensures SequenceLines(body) == body
  {
    if body != [] {
      NoHeadersKeepsLines(body[..|body| - 1]);
    }
  }

  /** On a file with a single record the two variants agree: its only
      record is the final script's joined sequence. */
  lemma SingleRecordAgrees(lines: seq<string>)
    requires HeaderCount(Body(lines)) == 0
    ensures Records(lines) == [FinalScript.Sequence(lines)]
  {
    var body := Body(lines);
    var sp := SplitBody(body);
    SplitBodyCount(body);
    SplitBodyFlatten(body);
    NoHeadersKeepsLines(body);
    assert sp.closed == [];
    assert Flatten(sp.closed) == "";
    assert sp.current == JoinStripped(body);
  }

  // ---------------------------------------------------------------------
  // Per-file tables

  /** The sum over the valid records of one word's number of offsets. */
  ghost function SumOffsets(rs: seq<string>, k: nat, w: string): nat {
    if rs == [] then 0
    else SumOffsets(rs[..|rs| - 1], k, w) + if IsDnaSequence(rs[|rs| - 1]) then |Offsets(rs[|rs| - 1], k, w)| else 0
  }

  /** The sum over the valid records of `max(0, len(r) - k + 1)`. */
  function SumRecordWindows(rs: seq<string>, k: nat): nat {
    if rs == [] then 0
    else SumRecordWindows(rs[..|rs| - 1], k) + if IsDnaSequence(rs[|rs| - 1]) then NumWindows(rs[|rs| - 1], k) else 0
  }

  /** A word occurs as a window of some valid record. */
  ghost predicate InValidRecord(rs: seq<string>, k: nat, w: string) {
    exists j: nat, i: nat :: j < |rs| && IsDnaSequence(rs[j]) && i + k <= |rs[j]| && Window(rs[j], k, i) == w
  }

  /** Processing records one by one: every count grows by the word's
      offsets in the valid records only, the total by their numbers of
      windows, and every new key is a window of one valid record. */
  lemma {:induction false} CountRecordsSpec(c: Counter, rs: seq<string>, k: nat)
    requires Valid(c) && KeysAreDna(c)
    ensures Valid(CountRecords(c, rs, k)) && KeysAreDna(CountRecords(c, rs, k))
    ensures forall w :: Get(CountRecords(c, rs, k), w) == Get(c, w) + SumOffsets(rs, k, w)
    ensures Total(CountRecords(c, rs, k)) == Total(c) + SumRecordWindows(rs, k)
    ensures forall w :: w in CountRecords(c, rs, k).counts && w !in c.counts ==> InValidRecord(rs, k, w)
  {
    if rs != [] {
      var pre, r := rs[..|rs| - 1], rs[|rs| - 1];
      CountRecordsSpec(c, pre, k);
      var before := CountRecords(c, pre, k);
      assert forall j :: 0 <= j < |pre| ==> pre[j] == rs[j];
      if IsDnaSequence(r) {
        CountPassSpec(before, r, k);
        CountPassKeepsDna(before, r, k);
        forall w | w in CountRecords(c, rs, k).counts && w !in c.counts
          ensures InValidRecord(rs, k, w)
        {
          if w !in before.counts {
            var i: nat :| i + k <= |r| && Window(r, k, i) == w;
            assert rs[|rs| - 1] == r;
          } else {
            var j: nat, i: nat :| j < |pre| && IsDnaSequence(pre[j]) && i + k <= |pre[j]| && Window(pre[j], k, i) == w;
            assert rs[j] == pre[j];
          }
        }
      } else {
        forall w | w in CountRecords(c, rs, k).counts && w !in c.counts
          ensures InValidRecord(rs, k, w)
        {
          var j: nat, i: nat :| j < |pre| && IsDnaSequence(pre[j]) && i + k <= |pre[j]| && Window(pre[j], k, i) == w;
          assert rs[j] == pre[j];
        }
      }
    }
  }

  /** A file's table counts each word once per offset at which it occurs in
      a valid record, sums to `max(0, len(r) - k + 1)` over the valid
      records `r`, and holds no k-mer that is not a window of a single
      valid record: no counted k-mer spans a record boundary. */
  lemma FileTableSpec(lines: seq<string>, k: nat)
    ensures Valid(FileTable(lines, k)) && KeysAreDna(FileTable(lines, k))
    ensures forall w :: Get(FileTable(lines, k), w) == SumOffsets(Records(lines), k, w)
    ensures Total(FileTable(lines, k)) == SumRecordWindows(Records(lines), k)
    ensures forall w :: w in FileTable(lines, k).counts ==> InValidRecord(Records(lines), k, w)
  {
    CountRecordsSpec(Empty, Records(lines), k);
  }

  /** An invalid record adds nothing to the table and one diagnostic,
      whatever records came before; an empty record (two headers in a row)
      is valid and adds nothing either. */
  lemma RecordSkippedOrEmpty(c: Counter, rs: seq<string>, r: string, k: nat)
    ensures !IsDnaSequence(r) ==>
              CountRecords(c, rs + [r], k) == CountRecords(c, rs, k) && InvalidCount(rs + [r]) == InvalidCount(rs) + 1
    ensures r == "" && k >= 1 ==>
              CountRecords(c, rs + [r], k) == CountRecords(c, rs, k) && InvalidCount(rs + [r]) == InvalidCount(rs)
  {
    assert (rs + [r])[..|rs|] == rs;
    if r == "" && k >= 1 {
      assert Windows(r, k) == [];
    }
  }

  // ---------------------------------------------------------------------
  // The run

  lemma {:induction false} RepeatSpec(name: string, n: nat)
    ensures |Repeat(name, n)| == n
    ensures forall i :: 0 <= i < n ==> Repeat(name, n)[i] == name
  {
    if n > 0 {
      RepeatSpec(name, n - 1);
    }
  }

  /** A listed `.fasta` file with at least one counted k-mer. */
  predicate Writes(e: Entry, k: nat)
  {
    IsFasta(e) && |FileTable(e.lines, k).counts| > 0
  }

  /** Every written file is the TSV of one listed `.fasta` file's own
      table, under that file's output name. */
  lemma {:induction false} WrittenFromOwnTable(dir: seq<Entry>, k: nat)
    ensures forall n :: n in Run(dir, k).written ==>
              exists j :: 0 <= j < |dir| && Writes(dir[j], k) && OutputName(dir[j].name) == n
                          && Run(dir, k).written[n] == LinesOf(Items(FileTable(dir[j].lines, k)))
  {
    if dir != [] {
      var pre, e := dir[..|dir| - 1], dir[|dir| - 1];
      WrittenFromOwnTable(pre, k);
      assert dir == pre + [e];
      RunSnoc(pre, e, k);
      var before := Run(pre, k).written;
      var after := Run(dir, k).written;
      StepWritten(Run(pre, k), e, k);
      forall n | n in after
        ensures exists j :: 0 <= j < |dir| && Writes(dir[j], k) && OutputName(dir[j].name) == n
                            && after[n] == LinesOf(Items(FileTable(dir[j].lines, k)))
      {
        if Writes(e, k) && n == OutputName(e.name) {
          assert dir[|dir| - 1] == e;
        } else {
          var j :| 0 <= j < |pre| && Writes(pre[j], k) && OutputName(pre[j].name) == n
                   && before[n] == LinesOf(Items(FileTable(pre[j].lines, k)));
          assert dir[j] == pre[j];
        }
      }
    }
  }

  /** A step writes at most its own file's table under its own name and
      leaves every other output as it was. */
  lemma StepWritten(out: Outcome, e: Entry, k: nat)
    ensures forall n :: n in Step(out, e, k).written ==>
              if Writes(e, k) && n == OutputName(e.name)
              then Step(out, e, k).written[n] == LinesOf(Items(FileTable(e.lines, k)))
              else n in out.written && Step(out, e, k).written[n] == out.written[n]
  {
  }

  lemma {:induction false} EveryCountedFileWritten(dir: seq<Entry>, k: nat)
    ensures forall j :: 0 <= j < |dir| && Writes(dir[j], k) ==> OutputName(dir[j].name) in Run(dir, k).written
  {
    if dir != [] {
      var pre, e := dir[..|dir| - 1], dir[|dir| - 1];
      EveryCountedFileWritten(pre, k);
      RunSnoc(pre, e, k);
      assert dir == pre + [e];
      StepKeepsNames(Run(pre, k), e, k);
      forall j | 0 <= j < |dir| && Writes(dir[j], k) ensures OutputName(dir[j].name) in Run(dir, k).written {
        if j < |pre| {
          assert dir[j] == pre[j];
        }
      }
    }
  }

  /** A step never removes an output name, and adds its own when it
      writes. */
  lemma StepKeepsNames(out: Outcome, e: Entry, k: nat)
    ensures out.written.Keys <= Step(out, e, k).written.Keys
    ensures Writes(e, k) ==> OutputName(e.name) in Step(out, e, k).written
  {
  }

  /** The diagnostics name exactly the listed `.fasta` files that hold an
      invalid record, and there is one per invalid record. */
  lemma {:induction false} SkippedNames(dir: seq<Entry>, k: nat)
    ensures forall n :: n in Run(dir, k).skipped ==>
              exists j :: 0 <= j < |dir| && IsFasta(dir[j]) && InvalidCount(Records(dir[j].lines)) > 0 && dir[j].name == n
    ensures forall j :: 0 <= j < |dir| && IsFasta(dir[j]) && InvalidCount(Records(dir[j].lines)) > 0 ==>
              dir[j].name in Run(dir, k).skipped
    ensures |Run(dir, k).skipped| == SumInvalid(dir)
  {
    if dir != [] {
      var pre, e := dir[..|dir| - 1], dir[|dir| - 1];
      SkippedNames(pre, k);
      assert dir == pre + [e];
      RunSnoc(pre, e, k);
      assert forall j :: 0 <= j < |pre| ==> pre[j] == dir[j];
      if IsFasta(e) {
        var m := InvalidCount(Records(e.lines));
        RepeatSpec(e.name, m);
        forall n | n in Run(dir, k).skipped
          ensures exists j :: 0 <= j < |dir| && IsFasta(dir[j]) && InvalidCount(Records(dir[j].lines)) > 0 && dir[j].name == n
        {
          if n !in Run(pre, k).skipped {
            assert n in Repeat(e.name, m);
            assert dir[|dir| - 1] == e;
          }
        }
        if m > 0 {
          assert Repeat(e.name, m)[m - 1] == e.name;
          assert Run(dir, k).skipped[|Run(pre, k).skipped| + m - 1] == e.name;
        }
      }
    }
  }

  /** The number of invalid records over the listed `.fasta` files named
      `n`. */
  function InvalidNamed(dir: seq<Entry>, n: string): nat {
    if dir == [] then 0
    else
      var e := dir[|dir| - 1];
      InvalidNamed(dir[..|dir| - 1], n) + if IsFasta(e) && e.name == n then InvalidCount(Records(e.lines)) else 0
  }

  lemma {:induction false} RepeatCount(name: string, m: nat, n: string)
    ensures multiset(Repeat(name, m))[n] == if n == name then m else 0
  {
    if m > 0 {
      RepeatCount(name, m - 1, n);
      assert multiset(Repeat(name, m)) == multiset(Repeat(name, m - 1)) + multiset{name};
    }
  }

  /** Each name is given by as many diagnostics as the listed `.fasta`
      files so named hold invalid records. */
  lemma {:induction false} SkippedPerName(dir: seq<Entry>, k: nat)
    ensures forall n :: multiset(Run(dir, k).skipped)[n] == InvalidNamed(dir, n)
  {
    if dir != [] {
      var pre, e := dir[..|dir| - 1], dir[|dir| - 1];
      SkippedPerName(pre, k);
      if IsFasta(e) {
        var m := InvalidCount(Records(e.lines));
        forall n ensures multiset(Run(dir, k).skipped)[n] == InvalidNamed(dir, n) {
          RepeatCount(e.name, m, n);
          assert multiset(Run(dir, k).skipped) == multiset(Run(pre, k).skipped) + multiset(Repeat(e.name, m));
        }
      }
    }
  }

  /** The number of invalid records over all listed `.fasta` files. */
  function SumInvalid(dir: seq<Entry>): nat {
    if dir == [] then 0
    else
      var e := dir[|dir| - 1];
      SumInvalid(dir[..|dir| - 1]) + if IsFasta(e) then InvalidCount(Records(e.lines)) else 0
  }

  /** No state leaks between files: the output of the last file to write
      under a name is that file's own table, whatever was listed before. */
  lemma NoLeak(dir: seq<Entry>, e: Entry, k: nat)
    requires Writes(e, k)
    ensures OutputName(e.name) in Run(dir + [e], k).written
    ensures Run(dir + [e], k).written[OutputName(e.name)] == LinesOf(Items(FileTable(e.lines, k)))
    ensures Run(dir + [e], k).written - {OutputName(e.name)} == Run(dir, k).written - {OutputName(e.name)}
  {
    var name, lines := OutputName(e.name), LinesOf(Items(FileTable(e.lines, k)));
    var before := Run(dir, k).written;
    RunSnoc(dir, e, k);
    StepWrites(Run(dir, k), e, k);
    UpdateThenRemove(before, name, lines);
  }

  lemma StepWrites(out: Outcome, e: Entry, k: nat)
    ensures Writes(e, k) ==>
              Step(out, e, k).written == out.written[OutputName(e.name) := LinesOf(Items(FileTable(e.lines, k)))]
  {
  }

  lemma UpdateThenRemove(m: map<string, seq<string>>, n: string, v: seq<string>)
    ensures m[n := v] - {n} == m - {n}
  {
  }

  lemma RunSnoc(dir: seq<Entry>, e: Entry, k: nat)
    ensures Run(dir + [e], k) == Step(Run(dir, k), e, k)
  {
    assert (dir + [e])[..|dir|] == dir;
  }

  /** Every written file reads back as its table's entries in key order,
      and those entries rebuild the table. */
  lemma OutputReadsBack(e: Entry, k: nat)
    ensures Parse(Concat(LinesOf(Items(FileTable(e.lines, k))))) == Some(Items(FileTable(e.lines, k)))
    ensures ToMap(Items(FileTable(e.lines, k))) == FileTable(e.lines, k).counts
  {
    var t := FileTable(e.lines, k);
    FileTableSpec(e.lines, k);
    DnaKeysWritable(t);
    RoundTrip(Items(t));
    ItemsRecoverTable(t);
  }
}
