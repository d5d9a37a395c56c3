/** The frequency table (a `collections.Counter` of k-mers) and the
    sliding-window counting pass
    `kmers.update([sequence[i:i+k] for i in range(len(sequence)-k+1)])`. */
module KmerCount {
  import opened Dna

  /** A Counter: the counts, and its keys in first-insertion order, which is
      the order `Counter.items()` iterates in. */
  datatype Counter = Counter(keys: seq<string>, counts: map<string, nat>)

  const Empty := Counter([], map[])

  /** The keys are distinct, are exactly the counted words, and every count
      is positive (a Counter only ever adds 1 per occurrence here). */
  ghost predicate Valid(c: Counter) {
    && (forall i, j :: 0 <= i < j < |c.keys| ==> c.keys[i] != c.keys[j])
    && (forall w :: w in c.counts <==> w in c.keys)
    && (forall w :: w in c.counts ==> c.counts[w] >= 1)
  }

  /** A count read from a map of counts: a missing key reads as 0. */
  function Lookup(m: map<string, nat>, w: string): nat {
    if w in m then m[w] else 0
  }

  /** `kmers[w]`: a missing key reads as 0. */
  function Get(c: Counter, w: string): nat {
    Lookup(c.counts, w)
  }

  /** One element of `Counter.update(iterable)`: increment `w`, appending
      it to the key order the first time it is seen. */
  function Add(c: Counter, w: string): Counter {
    if w in c.counts then Counter(c.keys, c.counts[w := c.counts[w] + 1])
    else Counter(c.keys + [w], c.counts[w := 1])
  }

  /** `Counter.update(ws)`: the elements of `ws` added one by one. */
  function AddAll(c: Counter, ws: seq<string>): Counter
  {
    if ws == [] then c else Add(AddAll(c, ws[..|ws| - 1]), ws[|ws| - 1])
  }

  /** A run of tables each obtained from the previous by adding the next
      word ends in the table `Counter.update` gives. */
  lemma {:induction false} AddAllSteps(cs: seq<Counter>, ws: seq<string>)
    requires |cs| == |ws| + 1
    requires forall i :: 0 <= i < |ws| ==> Add(cs[i], ws[i]) == cs[i + 1]
    ensures AddAll(cs[0], ws) == cs[|ws|]
  {
    if ws != [] {
      var n := |ws| - 1;
      AddAllSteps(cs[..n + 1], ws[..n]);
    }
  }

  /** `len(range(len(s) - k + 1))`: the number of window offsets. */
  function NumWindows(s: string, k: nat): nat {
    if |s| >= k then |s| - k + 1 else 0
  }

  /** `s[i:i+k]` for an offset whose window lies inside `s`. */
  function Window(s: string, k: nat, i: nat): (w: string)
    requires i + k <= |s|
    ensures |w| == k
  {
    s[i..i + k]
  }

  /** `[s[i:i+k] for i in range(len(s)-k+1)]`. */
  function Windows(s: string, k: nat): (ws: seq<string>)
    ensures |ws| == NumWindows(s, k)
    ensures forall i: nat :: i < |ws| ==> i + k <= |s| && ws[i] == Window(s, k, i)
  {
    seq(NumWindows(s, k), i requires 0 <= i < NumWindows(s, k) => Window(s, k, i))
  }

  /** The table after one counting pass over `s`. */
  function CountPass(c: Counter, s: string, k: nat): Counter
  {
    AddAll(c, Windows(s, k))
  }

  /** The offsets at which the window of `s` equals `w`. */
  ghost function Offsets(s: string, k: nat, w: string): set<nat> {
    set i: nat | i + k <= |s| && Window(s, k, i) == w
  }

  /** The sum of the counts of the listed keys. */
  function SumCounts(keys: seq<string>, m: map<string, nat>): nat {
    if keys == [] then 0 else SumCounts(keys[..|keys| - 1], m) + Lookup(m, keys[|keys| - 1])
  }

  /** The sum of all counts of a table. */
  function Total(c: Counter): nat {
    SumCounts(c.keys, c.counts)
  }

  /** Every counted word is a DNA sequence. */
  ghost predicate KeysAreDna(c: Counter) {
    forall w :: w in c.counts ==> IsDnaSequence(w)
  }

  /** The counting pass as the script runs it: a loop over the window
      offsets, each window added to the table. */
  method CountWindows(c: Counter, s: string, k: nat) returns (r: Counter)
    ensures r == CountPass(c, s, k)
  {
    var n := if |s| >= k then |s| - k + 1 else 0;
    ghost var ws := Windows(s, k);
    r := c;
    var i := 0;
    while i < n
      invariant 0 <= i <= n && n == |ws|
      invariant r == AddAll(c, ws[..i])
    {
      assert ws[..i + 1][..i] == ws[..i];
      r := Add(r, Window(s, k, i));
      i := i + 1;
    }
    assert ws[..n] == ws;
  }

  // ---------------------------------------------------------------------
  // Sums of counts

  lemma {:induction false} SumCountsFrame(keys: seq<string>, m: map<string, nat>, m': map<string, nat>)
    requires forall w :: w in keys ==> Lookup(m, w) == Lookup(m', w)
    ensures SumCounts(keys, m) == SumCounts(keys, m')
  {
    if keys != [] {
      SumCountsFrame(keys[..|keys| - 1], m, m');
    }
  }

  lemma {:induction false} SumCountsBump(keys: seq<string>, m: map<string, nat>, w: string)
    requires forall i, j :: 0 <= i < j < |keys| ==> keys[i] != keys[j]
    requires w in keys && w in m
    ensures SumCounts(keys, m[w := m[w] + 1]) == SumCounts(keys, m) + 1
  {
    var pre := keys[..|keys| - 1];
    if keys[|keys| - 1] == w {
      assert w !in pre;
      SumCountsFrame(pre, m, m[w := m[w] + 1]);
    } else {
      assert w in pre;
      SumCountsBump(pre, m, w);
    }
  }

  /** Adding a word already in the table. */
  lemma AddPresent(c: Counter, w: string)
    requires Valid(c) && w in c.counts
    ensures Valid(Add(c, w)) && Total(Add(c, w)) == Total(c) + 1
    ensures Add(c, w).keys == c.keys && Add(c, w).counts.Keys == c.counts.Keys
  {
    SumCountsBump(c.keys, c.counts, w);
  }

  /** Adding a word not yet in the table. */
  lemma AddAbsent(c: Counter, w: string)
    requires Valid(c) && w !in c.counts
    ensures Valid(Add(c, w)) && Total(Add(c, w)) == Total(c) + 1
    ensures Add(c, w).keys == c.keys + [w] && Add(c, w).counts.Keys == c.counts.Keys + {w}
  {
    assert w !in c.keys;
    AddAbsentDistinct(c.keys, w);
    AddAbsentTotal(c, w);
  }

  lemma AddAbsentDistinct(keys: seq<string>, w: string)
    requires forall i, j :: 0 <= i < j < |keys| ==> keys[i] != keys[j]
    requires w !in keys
    ensures forall i, j :: 0 <= i < j < |keys + [w]| ==> (keys + [w])[i] != (keys + [w])[j]
  {
    var ks := keys + [w];
    forall i, j | 0 <= i < j < |ks| ensures ks[i] != ks[j] {
      assert ks[i] == keys[i];
    }
  }

  lemma AddAbsentTotal(c: Counter, w: string)
    requires w !in c.keys && w !in c.counts
    ensures Total(Add(c, w)) == Total(c) + 1
  {
    var c' := Add(c, w);
    assert c'.keys[..|c'.keys| - 1] == c.keys;
    SumCountsFrame(c.keys, c.counts, c'.counts);
  }

  /** Adding one word keeps the table well formed, adds one to its total,
      one to that word's count, and nothing to any other count. */
  lemma AddSpec(c: Counter, w: string)
    requires Valid(c)
    ensures Valid(Add(c, w))
    ensures Total(Add(c, w)) == Total(c) + 1
    ensures Get(Add(c, w), w) == Get(c, w) + 1
    ensures forall v :: v != w ==> Get(Add(c, w), v) == Get(c, v)
    ensures c.keys <= Add(c, w).keys
    ensures Add(c, w).counts.Keys == c.counts.Keys + {w}
  {
    AddGet(c, w);
    AddShape(c, w);
  }

  lemma AddShape(c: Counter, w: string)
    requires Valid(c)
    ensures Valid(Add(c, w)) && Total(Add(c, w)) == Total(c) + 1
    ensures c.keys <= Add(c, w).keys && Add(c, w).counts.Keys == c.counts.Keys + {w}
  {
    if w in c.counts {
      AddPresent(c, w);
    } else {
      AddAbsent(c, w);
    }
  }

  lemma AddGet(c: Counter, w: string)
    ensures Get(Add(c, w), w) == Get(c, w) + 1
    ensures forall v :: v != w ==> Get(Add(c, w), v) == Get(c, v)
  {
  }

  /** `Counter.update(ws)` adds to every word's count its number of
      occurrences in `ws`. */
  lemma {:induction false} AddAllGet(c: Counter, ws: seq<string>)
    ensures forall w :: Get(AddAll(c, ws), w) == Get(c, w) + multiset(ws)[w]
  {
    if ws != [] {
      var pre, x := ws[..|ws| - 1], ws[|ws| - 1];
      assert ws == pre + [x];
      assert multiset(ws) == multiset(pre) + multiset{x};
      AddAllGet(c, pre);
    }
  }

  /** `Counter.update(ws)` keeps the old keys in front, in their order, and
      adds as keys exactly the words of `ws`. */
  lemma {:induction false} AddAllKeys(c: Counter, ws: seq<string>)
    ensures c.keys <= AddAll(c, ws).keys
    ensures AddAll(c, ws).counts.Keys == c.counts.Keys + set w | w in ws
  {
    if ws != [] {
      var pre, x := ws[..|ws| - 1], ws[|ws| - 1];
      assert ws == pre + [x];
      assert (set w | w in ws) == (set w | w in pre) + {x};
      AddAllKeys(c, pre);
    }
  }

  /** `Counter.update(ws)` keeps a table well formed and adds `|ws|` to its
      total. */
  lemma {:induction false} AddAllTotal(c: Counter, ws: seq<string>)
    requires Valid(c)
    ensures Valid(AddAll(c, ws))
    ensures Total(AddAll(c, ws)) == Total(c) + |ws|
  {
    if ws != [] {
      var pre, x := ws[..|ws| - 1], ws[|ws| - 1];
      AddAllTotal(c, pre);
      AddSpec(AddAll(c, pre), x);
    }
  }

  /** `Counter.update(ws)` on a well-formed table: every word's count grows
      by its number of occurrences in `ws`, the total grows by `|ws|`, the
      old keys keep their order at the front, and the new keys are words of
      `ws`. */
  lemma AddAllSpec(c: Counter, ws: seq<string>)
    requires Valid(c)
    ensures Valid(AddAll(c, ws))
    ensures Total(AddAll(c, ws)) == Total(c) + |ws|
    ensures forall w :: Get(AddAll(c, ws), w) == Get(c, w) + multiset(ws)[w]
    ensures c.keys <= AddAll(c, ws).keys
    ensures AddAll(c, ws).counts.Keys == c.counts.Keys + set w | w in ws
  {
    AddAllGet(c, ws);
    AddAllKeys(c, ws);
    AddAllTotal(c, ws);
  }

  /** The multiplicity of `x` among the first `n` elements of `ws` is the
      number of positions below `n` that hold `x`. */
  lemma {:induction false} Multiplicity(ws: seq<string>, x: string, n: nat)
    requires n <= |ws|
    ensures multiset(ws[..n])[x] == |set i: nat | i < n && ws[i] == x|
  {
    var upto := set i: nat | i < n && ws[i] == x;
    if n > 0 {
      Multiplicity(ws, x, n - 1);
      var before := set i: nat | i < n - 1 && ws[i] == x;
      assert ws[..n] == ws[..n - 1] + [ws[n - 1]];
      assert multiset(ws[..n]) == multiset(ws[..n - 1]) + multiset{ws[n - 1]};
      if ws[n - 1] == x {
        assert upto == before + {n - 1};
      } else {
        assert upto == before;
      }
    } else {
      assert upto == {};
    }
  }

  /** The list comprehension holds each word once per offset at which it
      occurs in `s`. */
  lemma WindowsMultiplicity(s: string, k: nat)
    ensures forall w :: multiset(Windows(s, k))[w] == |Offsets(s, k, w)|
  {
    var ws := Windows(s, k);
    forall w ensures multiset(ws)[w] == |Offsets(s, k, w)| {
      Multiplicity(ws, w, |ws|);
      assert ws[..|ws|] == ws;
      assert Offsets(s, k, w) == set i: nat | i < |ws| && ws[i] == w;
    }
  }

  /** One counting pass on a well-formed table:
      - the count of every word `w` grows by exactly the number of offsets
        `i` in `0 .. |s|-k` with `s[i..i+k] == w`;
      - the sum of all counts grows by `|s| - k + 1`, or by nothing when
        `k > |s|`, in which case the table is unchanged;
      - every new key has length k and occurs in `s`;
      - the old keys keep their places at the front of the order. */
  lemma CountPassSpec(c: Counter, s: string, k: nat)
    requires Valid(c)
    ensures Valid(CountPass(c, s, k))
    ensures forall w :: Get(CountPass(c, s, k), w) == Get(c, w) + |Offsets(s, k, w)|
    ensures Total(CountPass(c, s, k)) == Total(c) + NumWindows(s, k)
    ensures k > |s| ==> CountPass(c, s, k) == c
    ensures forall w :: w in CountPass(c, s, k).counts && w !in c.counts ==>
              |w| == k && exists i: nat :: i + k <= |s| && Window(s, k, i) == w
    ensures c.keys <= CountPass(c, s, k).keys
  {
    var ws := Windows(s, k);
    AddAllSpec(c, ws);
    WindowsMultiplicity(s, k);
    forall w | w in CountPass(c, s, k).counts && w !in c.counts
      ensures |w| == k && exists i: nat :: i + k <= |s| && Window(s, k, i) == w
    {
      var j :| 0 <= j < |ws| && ws[j] == w;
      assert Window(s, k, j) == w;
    }
  }

  /** Adding DNA words to a table with DNA keys leaves only DNA keys. */
  lemma {:induction false} AddAllKeepsDna(c: Counter, ws: seq<string>)
    requires KeysAreDna(c)
    requires forall i :: 0 <= i < |ws| ==> IsDnaSequence(ws[i])
    ensures KeysAreDna(AddAll(c, ws))
  {
    if ws != [] {
      var pre, x := ws[..|ws| - 1], ws[|ws| - 1];
      assert forall i :: 0 <= i < |pre| ==> pre[i] == ws[i];
      AddAllKeepsDna(c, pre);
      assert AddAll(c, ws).counts.Keys == AddAll(c, pre).counts.Keys + {x};
    }
  }

  /** Every window of a DNA sequence is a DNA sequence. */
  lemma WindowsAreDna(s: string, k: nat)
    requires IsDnaSequence(s)
    ensures forall i :: 0 <= i < |Windows(s, k)| ==> IsDnaSequence(Windows(s, k)[i])
  {
    var ws := Windows(s, k);
    forall i | 0 <= i < |ws| ensures IsDnaSequence(ws[i]) {
      DnaSlice(s, i, i + k);
    }
  }

  /** A pass over a DNA sequence only ever adds DNA keys. */
  lemma CountPassKeepsDna(c: Counter, s: string, k: nat)
    requires KeysAreDna(c) && IsDnaSequence(s)
    ensures KeysAreDna(CountPass(c, s, k))
  {
    WindowsAreDna(s, k);
    AddAllKeepsDna(c, Windows(s, k));
  }
}
