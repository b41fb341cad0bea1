/** The string primitives the bot relies on: lower-casing, `String.prototype.trim`,
    prefix tests and `path.extname`. */
module Text {
  import opened Results

  /** Lower-cases an ASCII letter and leaves every other character alone. */
  function LowerChar(c: char): (l: char)
    ensures 'A' <= c <= 'Z' ==> l as int == c as int + 32
    ensures !('A' <= c <= 'Z') ==> l == c
  {
    if 'A' <= c <= 'Z' then (c as int + 32) as char else c
  }

  /** Lower-cases a string character by character. */
  function Lower(s: string): (l: string)
    ensures |l| == |s|
    ensures forall i :: 0 <= i < |s| ==> l[i] == LowerChar(s[i])
  {
    seq(|s|, i requires 0 <= i < |s| => LowerChar(s[i]))
  }

  predicate StartsWith(s: string, prefix: string) {
    |prefix| <= |s| && s[..|prefix|] == prefix
  }

  /** The characters ECMAScript's `trim` removes: WhiteSpace (tab, vertical tab,
      form feed, ZWNBSP and every space separator of category Zs) and
      LineTerminator (LF, CR, LS, PS). */
  predicate IsWhitespace(c: char) {
    || c == '\t' || c == '\n' || c == '\U{000B}' || c == '\U{000C}' || c == '\r'
    || c == ' ' || c == '\U{00A0}' || c == '\U{1680}'
    || ('\U{2000}' <= c <= '\U{200A}')
    || c == '\U{2028}' || c == '\U{2029}' || c == '\U{202F}' || c == '\U{205F}'
    || c == '\U{3000}' || c == '\U{FEFF}'
  }

  predicate AllWhitespace(s: string) {
    forall i :: 0 <= i < |s| ==> IsWhitespace(s[i])
  }

  /** `r` is `s[lo..hi]` with only whitespace cut away on either side, and is
      either empty or starts and ends with non-whitespace. */
  predicate TrimmedAt(r: string, s: string, lo: int, hi: int) {
    && 0 <= lo <= hi <= |s| && r == s[lo..hi]
    && (forall i :: 0 <= i < lo ==> IsWhitespace(s[i]))
    && (forall i :: hi <= i < |s| ==> IsWhitespace(s[i]))
    && (r == [] || (!IsWhitespace(s[lo]) && !IsWhitespace(s[hi - 1])))
  }

  /** `r` is what trimming `s` must produce. */
  ghost predicate IsTrimOf(r: string, s: string) {
    exists lo, hi :: TrimmedAt(r, s, lo, hi)
  }

  /** Where `trimStart` cuts: the end of the whitespace run that opens `s`. */
  function TrimmedStart(s: string): (lo: nat)
    ensures lo <= |s|
    ensures forall i :: 0 <= i < lo ==> IsWhitespace(s[i])
    ensures lo < |s| ==> !IsWhitespace(s[lo])
  {
    if |s| > 0 && IsWhitespace(s[0]) then 1 + TrimmedStart(s[1..]) else 0
  }

  /** Where `trimEnd` cuts: the start of the whitespace run that closes `s`. */
  function TrimmedEnd(s: string): (hi: nat)
    ensures hi <= |s|
    ensures forall i :: hi <= i < |s| ==> IsWhitespace(s[i])
    ensures hi > 0 ==> !IsWhitespace(s[hi - 1])
  {
    if |s| > 0 && IsWhitespace(s[|s| - 1]) then TrimmedEnd(s[..|s| - 1]) else |s|
  }

  /** ECMAScript `String.prototype.trim`. */
  function Trim(s: string): (r: string)
    ensures IsTrimOf(r, s)
    ensures r == [] <==> AllWhitespace(s)
  {
    var lo := TrimmedStart(s);
    if lo == |s| then
      assert TrimmedAt([], s, lo, lo);
      []
    else
      var hi := TrimmedEnd(s);
      assert lo < hi;
      assert TrimmedAt(s[lo..hi], s, lo, hi);
      s[lo..hi]
  }

  /** Whatever witnesses `IsTrimOf`, they cut exactly where `trimStart` and
      `trimEnd` do, or the whole string is whitespace. */
  lemma TrimCuts(r: string, s: string, lo: int, hi: int)
    requires TrimmedAt(r, s, lo, hi)
    ensures r == [] <==> AllWhitespace(s)
    ensures r != [] ==> lo == TrimmedStart(s) && hi == TrimmedEnd(s)
  {
    if r != [] {
      var l, h := TrimmedStart(s), TrimmedEnd(s);
      assert !IsWhitespace(s[lo]) && !IsWhitespace(s[hi - 1]);
      assert l == lo;
      assert h == hi;
    }
  }

  /** A string has only one trimmed form. */
  lemma TrimUnique(a: string, b: string, s: string)
    requires IsTrimOf(a, s) && IsTrimOf(b, s)
    ensures a == b
  {
    var la, ha :| TrimmedAt(a, s, la, ha);
    var lb, hb :| TrimmedAt(b, s, lb, hb);
    TrimCuts(a, s, la, ha);
    TrimCuts(b, s, lb, hb);
  }

  /** Trimming an already trimmed string changes nothing. */
  lemma TrimIdempotent(s: string)
    ensures Trim(Trim(s)) == Trim(s)
  {
    var r := Trim(s);
    assert r[..0] == [] && r[|r|..] == [] && r[0..|r|] == r;
    assert TrimmedAt(r, r, 0, |r|);
    TrimUnique(Trim(r), r, r);
  }

  /** The index of the last '.' in `s`, if there is one. */
  function LastDot(s: string): (k: Option<nat>)
    ensures k.Some? ==> k.value < |s| && s[k.value] == '.'
    ensures k.Some? ==> forall j :: k.value < j < |s| ==> s[j] != '.'
    ensures k.None? ==> forall j :: 0 <= j < |s| ==> s[j] != '.'
  {
    if |s| == 0 then None
    else if s[|s| - 1] == '.' then Some(|s| - 1)
    else
      var k := LastDot(s[..|s| - 1]);
      assert forall j :: 0 <= j < |s| - 1 ==> s[j] == s[..|s| - 1][j];
      k
  }

  /** Node's `path.extname` for a name without '/' (a directory entry): the suffix
      from the last '.', unless that '.' is the first character or the name is
      exactly "..", in which case there is no extension. */
  function ExtName(name: string): (ext: string)
    ensures ext != [] ==> |ext| < |name| && ext[0] == '.' && ext == name[|name| - |ext|..]
    ensures ext != [] ==> forall j :: 0 < j < |ext| ==> ext[j] != '.'
    ensures ext == [] <==> name == ".." || forall j :: 0 < j < |name| ==> name[j] != '.'
  {
    match LastDot(name)
    case None => ""
    case Some(k) => if k == 0 || name == ".." then "" else name[k..]
  }
}
