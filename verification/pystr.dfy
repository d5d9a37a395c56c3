/** The few Python string operations the script relies on: `str.strip()`,
    `str.startswith`, `str.endswith` and `os.path.splitext`. */
module PyStr {

  /** The characters `str.isspace()` holds of, which `str.strip()` with no
      argument removes: ASCII tab to carriage return, the four ASCII
      separators 0x1C..0x1F, space, and the Unicode spaces. */
  predicate IsSpace(c: char) {
    ('\t' <= c <= '\r') || ('\U{1C}' <= c <= '\U{1F}') || c == ' '
    || c == '\U{85}' || c == '\U{A0}' || c == '\U{1680}'
    || ('\U{2000}' <= c <= '\U{200A}') || c == '\U{2028}' || c == '\U{2029}'
    || c == '\U{202F}' || c == '\U{205F}' || c == '\U{3000}'
  }

  predicate AllSpace(s: string) {
    forall i :: 0 <= i < |s| ==> IsSpace(s[i])
  }

  /** `str.lstrip()`: drops the leading whitespace. */
  function LStrip(s: string): string {
    if s != [] && IsSpace(s[0]) then LStrip(s[1..]) else s
  }

  /** `str.rstrip()`: drops the trailing whitespace. */
  function RStrip(s: string): string {
    if s != [] && IsSpace(s[|s| - 1]) then RStrip(s[..|s| - 1]) else s
  }

  /** `str.strip()`. */
  function Strip(s: string): string {
    RStrip(LStrip(s))
  }

  /** `lstrip` keeps a suffix of `s`: what it drops is whitespace, and what
      it keeps does not start with whitespace. */
  lemma {:induction false} LStripSpec(s: string)
    ensures |LStrip(s)| <= |s| && LStrip(s) == s[|s| - |LStrip(s)|..]
    ensures AllSpace(s[..|s| - |LStrip(s)|])
    ensures LStrip(s) != [] ==> !IsSpace(LStrip(s)[0])
  {
    if s != [] && IsSpace(s[0]) {
      var r := LStrip(s[1..]);
      LStripSpec(s[1..]);
      assert s[..|s| - |r|] == [s[0]] + s[1..][..|s| - 1 - |r|];
      assert s[1..][|s| - 1 - |r|..] == s[|s| - |r|..];
    }
  }

  /** `rstrip` keeps a prefix of `s`: what it drops is whitespace, and what
      it keeps does not end with whitespace. */
  lemma {:induction false} RStripSpec(s: string)
    ensures |RStrip(s)| <= |s| && RStrip(s) == s[..|RStrip(s)|]
    ensures AllSpace(s[|RStrip(s)|..])
    ensures RStrip(s) != [] ==> !IsSpace(RStrip(s)[|RStrip(s)| - 1])
  {
    if s != [] && IsSpace(s[|s| - 1]) {
      var r := RStrip(s[..|s| - 1]);
      RStripSpec(s[..|s| - 1]);
      assert s[|r|..] == s[..|s| - 1][|r|..] + [s[|s| - 1]];
      assert s[..|s| - 1][..|r|] == s[..|r|];
    }
  }

  /** The stripped string is the slice of `s` left once the whitespace at
      both ends is cut off, and it neither starts nor ends with
      whitespace. */
  lemma StripSpec(s: string)
    ensures exists i, j :: 0 <= i <= j <= |s| && Strip(s) == s[i..j] && AllSpace(s[..i]) && AllSpace(s[j..])
    ensures Strip(s) != [] ==> !IsSpace(Strip(s)[0]) && !IsSpace(Strip(s)[|Strip(s)| - 1])
  {
    var l := LStrip(s);
    LStripSpec(s);
    var r := RStrip(l);
    RStripSpec(l);
    var i := |s| - |l|;
    assert r == s[i..i + |r|];
    assert s[i + |r|..] == l[|r|..];
    assert s[..i + |r|][i..] == r;
  }

  /** A line whose first character is not whitespace keeps that character
      at the front when stripped. */
  lemma StripKeepsFirst(s: string)
    requires s != [] && !IsSpace(s[0])
    ensures Strip(s) != [] && Strip(s)[0] == s[0]
  {
    var r := Strip(s);
    StripSpec(s);
    var i, j :| 0 <= i <= j <= |s| && r == s[i..j] && AllSpace(s[..i]) && AllSpace(s[j..]);
  }

  /** `s.startswith(p)`. */
  predicate StartsWith(s: string, p: string) {
    p <= s
  }

  /** `s.endswith(p)`. */
  predicate EndsWith(s: string, p: string) {
    |p| <= |s| && s[|s| - |p|..] == p
  }

  /** The index of the last occurrence of `c` in `s`, or -1 (`str.rfind`). */
  function RFind(s: string, c: char): (r: int)
    ensures -1 <= r < |s|
    ensures r >= 0 ==> s[r] == c
    ensures forall i :: r < i < |s| ==> s[i] != c
  {
    if s == [] then -1
    else if s[|s| - 1] == c then |s| - 1
    else RFind(s[..|s| - 1], c)
  }

  predicate AllDots(s: string) {
    forall i :: 0 <= i < |s| ==> s[i] == '.'
  }

  /** `os.path.splitext(p)[0]` on POSIX: the extension is the part from
      the last '.' of the final path component, except that dots leading
      that component do not start an extension ('.fasta' has none). */
  function SplitExtRoot(p: string): (root: string)
    ensures root <= p
    ensures root != p ==> p[|root|] == '.'
    ensures root != p ==> forall i :: |root| < i < |p| ==> p[i] != '.' && p[i] != '/'
    ensures root != p ==> exists i :: RFind(p, '/') < i < |root| && p[i] != '.'
    ensures root == p ==> forall i, j :: RFind(p, '/') < j < i < |p| && p[i] == '.' ==> p[j] == '.'
  {
    var sep := RFind(p, '/');
    var dot := RFind(p, '.');
    if dot > sep && !AllDots(p[sep + 1..dot]) then
      var m :| 0 <= m < dot - sep - 1 && p[sep + 1..dot][m] != '.';
      assert p[sep + 1 + m] != '.';
      p[..dot]
    else
      assert forall i :: dot < i < |p| ==> p[i] != '.';
      assert dot > sep ==> forall j :: sep < j < dot ==> p[sep + 1..dot][j - sep - 1] == p[j];
      p
  }

  /** A listed `.fasta` file name with something other than dots before
      the extension loses exactly the six characters ".fasta". */
  lemma FastaRoot(name: string)
    requires EndsWith(name, ".fasta") && '/' !in name
    requires !AllDots(name[..|name| - 6])
    ensures SplitExtRoot(name) == name[..|name| - 6]
  {
    var dot := RFind(name, '.');
    assert name[|name| - 6] == '.';
    assert forall i :: |name| - 6 < i < |name| ==> name[i] != '.';
    assert dot == |name| - 6;
    assert RFind(name, '/') == -1;
  }

  /** A name that is only dots before ".fasta" (such as ".fasta" itself)
      has no extension, so it is kept whole. */
  lemma DotsFastaKept(name: string)
    requires EndsWith(name, ".fasta") && '/' !in name
    requires AllDots(name[..|name| - 6])
    ensures SplitExtRoot(name) == name
  {
    var dot := RFind(name, '.');
    assert name[|name| - 6] == '.';
    assert forall i :: |name| - 6 < i < |name| ==> name[i] != '.';
    assert dot == |name| - 6;
    assert RFind(name, '/') == -1;
    assert forall j :: 0 <= j < dot ==> name[..|name| - 6][j] == name[j];
  }
}
