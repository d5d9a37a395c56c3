/** The table writer `write_output`: one line `kmer<TAB>count<NEWLINE>` per
    table entry, in the table's iteration order, and a reader for that
    format against which the writer is checked. */
module Tsv {
  import opened Dna
  import opened KmerCount

  datatype Option<T> = None | Some(value: T)

  predicate IsDigit(c: char) {
    '0' <= c <= '9'
  }

  predicate AllDigits(s: string) {
    forall i :: 0 <= i < |s| ==> IsDigit(s[i])
  }

  function DigitChar(d: nat): (c: char)
    requires d < 10
    ensures IsDigit(c) && c as int - '0' as int == d
  {
    ('0' as int + d) as char
  }

  /** `f"{n}"` for a non-negative integer: decimal digits, no leading
      zero. */
  function DecimalString(n: nat): (s: string)
    ensures s != [] && AllDigits(s)
    ensures |s| > 1 ==> s[0] != '0'
  {
    if n < 10 then [DigitChar(n)] else DecimalString(n / 10) + [DigitChar(n % 10)]
  }

  /** The value of a string of decimal digits. */
  function DigitsValue(s: string): nat
    requires AllDigits(s)
  {
    if s == [] then 0 else 10 * DigitsValue(s[..|s| - 1]) + (s[|s| - 1] as int - '0' as int)
  }

  /** Reads a count field: a non-empty run of decimal digits. */
  function ParseNat(s: string): Option<nat> {
    if s != [] && AllDigits(s) then Some(DigitsValue(s)) else None
  }

  /** Reading back a written count gives the count. */
  lemma {:induction false} DecimalRoundTrip(n: nat)
    ensures ParseNat(DecimalString(n)) == Some(n)
  {
    var s := DecimalString(n);
    if n >= 10 {
      DecimalRoundTrip(n / 10);
      assert s[..|s| - 1] == DecimalString(n / 10);
      assert s[|s| - 1] as int - '0' as int == n % 10;
      assert DigitsValue(s) == 10 * (n / 10) + n % 10;
    } else {
      assert s[..0] == [];
      assert DigitsValue(s) == 10 * DigitsValue([]) + n;
    }
  }

  /** The line written for one entry: `f"{kmer}\t{count}\n"`. */
  function Line(key: string, count: nat): string {
    key + "\t" + DecimalString(count) + "\n"
  }

  /** `kmers.items()`: the entries in the Counter's key order. */
  function Items(c: Counter): seq<(string, nat)> {
    seq(|c.keys|, i requires 0 <= i < |c.keys| => (c.keys[i], Get(c, c.keys[i])))
  }

  /** The lines written for a sequence of entries, one per entry. */
  function LinesOf(items: seq<(string, nat)>): seq<string> {
    seq(|items|, i requires 0 <= i < |items| => Line(items[i].0, items[i].1))
  }

  /** The file's contents: the written lines one after the other. */
  function Concat(lines: seq<string>): string {
    if lines == [] then "" else lines[0] + Concat(lines[1..])
  }

  /** The index of the first `ch` in `s`, or `|s|` when there is none. */
  function IndexOf(s: string, ch: char): (r: nat)
    ensures r <= |s|
    ensures r < |s| ==> s[r] == ch
    ensures forall i :: 0 <= i < r ==> s[i] != ch
  {
    if s == [] then 0 else if s[0] == ch then 0 else 1 + IndexOf(s[1..], ch)
  }

  /** Reads a TSV text back: every line ends with a newline and is a key,
      a tab and a count. */
  function Parse(text: string): Option<seq<(string, nat)>>
    decreases |text|
  {
    if text == [] then Some([])
    else
      var nl := IndexOf(text, '\n');
      if nl == |text| then None
      else
        var line := text[..nl];
        var tab := IndexOf(line, '\t');
        if tab == |line| then None
        else
          match ParseNat(line[tab + 1..])
          case None => None
          case Some(n) =>
            match Parse(text[nl + 1..])
            case None => None
            case Some(rest) => Some([(line[..tab], n)] + rest)
  }

  /** `dict(items)`: later pairs override earlier ones. */
  function ToMap(items: seq<(string, nat)>): map<string, nat> {
    if items == [] then map[] else ToMap(items[..|items| - 1])[items[|items| - 1].0 := items[|items| - 1].1]
  }

  /** A key that can be written without breaking the line structure. */
  predicate Writable(key: string) {
    '\t' !in key && '\n' !in key
  }

  lemma IndexOfIs(s: string, ch: char, p: nat)
    requires p < |s| && s[p] == ch
    requires forall i :: 0 <= i < p ==> s[i] != ch
    ensures IndexOf(s, ch) == p
  {
  }

  /** One written line, followed by anything, is read back as its entry
      followed by whatever that rest reads as. */
  lemma ParseLine(key: string, count: nat, rest: string)
    requires Writable(key)
    ensures Parse(Line(key, count) + rest) ==
      match Parse(rest)
      case None => None
      case Some(items) => Some([(key, count)] + items)
  {
    var d := DecimalString(count);
    var text := Line(key, count) + rest;
    var nl := |key| + 1 + |d|;
    assert text == key + ['\t'] + d + ['\n'] + rest;
    assert forall i :: 0 <= i < |key| ==> text[i] == key[i];
    assert forall i :: 0 <= i < |d| ==> text[|key| + 1 + i] == d[i];
    IndexOfIs(text, '\n', nl);
    var line := text[..nl];
    assert line == key + ['\t'] + d;
    IndexOfIs(line, '\t', |key|);
    assert line[..|key|] == key;
    assert line[|key| + 1..] == d;
    assert text[nl + 1..] == rest;
    DecimalRoundTrip(count);
  }

  /** Writing entries whose keys hold no tab and no newline, then reading
      the text back, gives the same entries in the same order. */
  lemma {:induction false} RoundTrip(items: seq<(string, nat)>)
    requires forall i :: 0 <= i < |items| ==> Writable(items[i].0)
    ensures Parse(Concat(LinesOf(items))) == Some(items)
  {
    if items != [] {
      var lines := LinesOf(items);
      assert lines[1..] == LinesOf(items[1..]);
      RoundTrip(items[1..]);
      ParseLine(items[0].0, items[0].1, Concat(lines[1..]));
      assert [items[0]] + items[1..] == items;
    }
  }

  /** The first `n` entries of a well-formed table rebuild its counts for
      the first `n` keys. */
  lemma {:induction false} ItemsPrefix(c: Counter, n: nat)
    requires n <= |c.keys|
    ensures forall w :: w in ToMap(Items(c)[..n]) <==> w in c.keys[..n]
    ensures forall w :: w in ToMap(Items(c)[..n]) ==> ToMap(Items(c)[..n])[w] == Get(c, w)
  {
    if n > 0 {
      ItemsPrefix(c, n - 1);
      var items := Items(c)[..n];
      assert items[..n - 1] == Items(c)[..n - 1];
      var key := c.keys[n - 1];
      assert items[n - 1] == (key, Get(c, key));
      assert ToMap(items) == ToMap(Items(c)[..n - 1])[key := Get(c, key)];
      assert c.keys[..n] == c.keys[..n - 1] + [key];
    }
  }

  /** The written entries are exactly the table: one per key, and as a
      dictionary they equal the counts. */
  lemma ItemsRecoverTable(c: Counter)
    requires Valid(c)
    ensures |Items(c)| == |c.counts|
    ensures ToMap(Items(c)) == c.counts
  {
    ItemsPrefix(c, |c.keys|);
    assert Items(c)[..|c.keys|] == Items(c);
    assert c.keys[..|c.keys|] == c.keys;
    KeysCount(c.keys, c.counts.Keys);
  }

  /** Distinct keys listing a set have as many elements as the set. */
  lemma {:induction false} KeysCount(keys: seq<string>, s: set<string>)
    requires forall i, j :: 0 <= i < j < |keys| ==> keys[i] != keys[j]
    requires forall w :: w in s <==> w in keys
    ensures |keys| == |s|
  {
    if keys != [] {
      var pre, x := keys[..|keys| - 1], keys[|keys| - 1];
      assert x !in pre;
      assert forall w :: w in s - {x} <==> w in pre;
      KeysCount(pre, s - {x});
    }
  }

  /** `write_output`: one `file.write` per entry of `kmers.items()`. The
      lines are the table's entries in order, and when no key holds a tab
      or a newline the text reads back as exactly those entries. */
  method WriteOutput(c: Counter) returns (written: seq<string>)
    ensures written == LinesOf(Items(c))
    ensures |written| == |c.keys|
    ensures forall i :: 0 <= i < |c.keys| ==> written[i] == Line(c.keys[i], Get(c, c.keys[i]))
    ensures (forall w :: w in c.keys ==> Writable(w)) ==> Parse(Concat(written)) == Some(Items(c))
  {
    written := [];
    for i := 0 to |c.keys|
      invariant written == LinesOf(Items(c)[..i])
    {
      var kmer := c.keys[i];
      var count := Get(c, kmer);
      assert Items(c)[..i + 1] == Items(c)[..i] + [(kmer, count)];
      written := written + [Line(kmer, count)];
    }
    assert Items(c)[..|c.keys|] == Items(c);
    if forall w :: w in c.keys ==> Writable(w) {
      RoundTrip(Items(c));
    }
  }

  /** Keys that are DNA sequences are always writable. */
  lemma DnaKeysWritable(c: Counter)
    requires Valid(c) && KeysAreDna(c)
    ensures forall w :: w in c.keys ==> Writable(w)
    ensures forall i :: 0 <= i < |Items(c)| ==> Writable(Items(c)[i].0)
  {
    forall w | w in c.keys ensures Writable(w) {
      DnaHasNoSeparator(w);
    }
  }
}
