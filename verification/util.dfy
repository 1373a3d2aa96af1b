/** String helpers of util.h: first-occurrence search, the buffer pop of
    util.cpp, `split`/`split_n`/`join`, `ends_with`, `canonicalize_path`. The
    bodies of the last group are not shown in util.cpp; they are defined here
    from their test vectors in test.cpp, which are proved as lemmas. */
module Util {
  import opened Base

  const CRLF: string := "\r\n"
  /** The blank line that ends a message head. */
  const CRLFCRLF: string := "\r\n\r\n"

  // ---------------------------------------------------------------------
  // First occurrence (`std::string::find(sep, 0)`)
  // ---------------------------------------------------------------------

  /** `sep` occurs in `s` starting at index `i`. */
  predicate OccursAt(s: string, sep: string, i: nat) {
    i + |sep| <= |s| && s[i..i + |sep|] == sep
  }

  function FindFrom(s: string, sep: string, i: nat): (r: Option<nat>)
    ensures r.Some? ==> i <= r.value && OccursAt(s, sep, r.value)
    ensures r.Some? ==> forall j: nat :: i <= j < r.value ==> !OccursAt(s, sep, j)
    ensures r.None? ==> forall j: nat :: i <= j ==> !OccursAt(s, sep, j)
    decreases |s| - i
  {
    if i + |sep| > |s| then None
    else if s[i..i + |sep|] == sep then Some(i)
    else FindFrom(s, sep, i + 1)
  }

  /** The index of the first occurrence of `sep` in `s`, or `None` for
      `string::npos`. The empty separator occurs at index 0. */
  function Find(s: string, sep: string): (r: Option<nat>)
    ensures r.Some? ==> OccursAt(s, sep, r.value)
    ensures r.Some? ==> forall j: nat :: j < r.value ==> !OccursAt(s, sep, j)
    ensures r.None? ==> forall j: nat :: !OccursAt(s, sep, j)
  {
    FindFrom(s, sep, 0)
  }

  /** An occurrence with no earlier one is what `Find` returns. */
  lemma FindIsFirst(s: string, sep: string, n: nat)
    requires OccursAt(s, sep, n)
    requires forall j: nat :: j < n ==> !OccursAt(s, sep, j)
    ensures Find(s, sep) == Some(n)
  {
    match Find(s, sep)
    case None =>
    case Some(p) =>
      if p < n {
      } else if n < p {
      }
  }

  lemma OccursInPrefix(s: string, t: string, sep: string, j: nat)
    requires j + |sep| <= |s|
    ensures OccursAt(s + t, sep, j) <==> OccursAt(s, sep, j)
  {
    assert (s + t)[j..j + |sep|] == s[j..j + |sep|];
  }

  lemma OccursInSuffix(s: string, t: string, sep: string, j: nat)
    ensures OccursAt(s + t, sep, |s| + j) <==> OccursAt(t, sep, j)
  {
    if j + |sep| <= |t| {
      assert (s + t)[|s| + j..|s| + j + |sep|] == t[j..j + |sep|];
    }
  }

  /** Appending text never moves an occurrence already present: the first
      occurrence in `s` is the first occurrence in `s + t`. */
  lemma FindAppend(s: string, t: string, sep: string)
    requires Find(s, sep).Some?
    ensures Find(s + t, sep) == Find(s, sep)
  {
    var p := Find(s, sep).value;
    OccursInPrefix(s, t, sep, p);
    forall j: nat | j < p
      ensures !OccursAt(s + t, sep, j)
    {
      OccursInPrefix(s, t, sep, j);
    }
    FindIsFirst(s + t, sep, p);
  }

  // ---------------------------------------------------------------------
  // Buffer pops (util.cpp) and the find-then-pop step of both readers
  // ---------------------------------------------------------------------

  /** `pop_n_sstream(buffer, n, discard)`: returns the first `n` characters
      and leaves the buffer holding what follows the next `discard` ones. */
  function PopN(buffer: string, n: nat, discard: nat): (r: (string, string))
    requires n + discard <= |buffer|
    ensures |r.0| == n
    ensures r.0 + buffer[n..n + discard] + r.1 == buffer
  {
    var popped := buffer[..n];
    var rest := buffer[n + discard..];
    assert popped + buffer[n..n + discard] + rest == buffer;
    (popped, rest)
  }

  /** A `std::stringstream` as its contents and its read position. */
  datatype StringStream = StringStream(contents: string, readPos: nat)

  /** `sstream_size`: seeks to the end to measure, then seeks back. */
  function SstreamSize(ss: StringStream): (r: (nat, StringStream))
    ensures r.0 == |ss.contents|
    ensures r.1 == ss
  {
    var atEnd := ss.(readPos := |ss.contents|);
    (atEnd.readPos, atEnd.(readPos := ss.readPos))
  }

  /** The step both buffered readers take: find the first `sep` in the
      buffer and, if present, pop the text before it and drop the `sep`. */
  function SplitFirst(buffer: string, sep: string): (r: Option<(string, string)>)
    ensures r.None? <==> Find(buffer, sep).None?
    ensures r.Some? ==> buffer == r.value.0 + sep + r.value.1
    ensures r.Some? ==> Find(buffer, sep) == Some(|r.value.0|)
  {
    match Find(buffer, sep)
    case None => None
    case Some(p) => Some(PopN(buffer, p, |sep|))
  }

  /** `SplitFirst` on a buffer that grows at the end keeps its answer. */
  lemma SplitFirstAppend(s: string, t: string, sep: string)
    requires SplitFirst(s, sep).Some?
    ensures SplitFirst(s + t, sep) ==
            Some((SplitFirst(s, sep).value.0, SplitFirst(s, sep).value.1 + t))
  {
    FindAppend(s, t, sep);
    var p := Find(s, sep).value;
    assert (s + t)[..p] == s[..p];
    assert (s + t)[p + |sep|..] == s[p + |sep|..] + t;
  }

  /** The concatenation of a sequence of strings. */
  function Flatten(parts: seq<string>): string {
    if parts == [] then "" else parts[0] + Flatten(parts[1..])
  }

  lemma FlattenAppend(a: seq<string>, b: seq<string>)
    ensures Flatten(a + b) == Flatten(a) + Flatten(b)
  {
    if a != [] {
      assert (a + b)[1..] == a[1..] + b;
      FlattenAppend(a[1..], b);
    } else {
      assert a + b == b;
    }
  }

  // ---------------------------------------------------------------------
  // split / split_n / join
  // ---------------------------------------------------------------------

  /** Where `split` cuts next: the part ends at `r.0` and the rest starts
      at `r.1`, the separator lying between. The empty separator cuts after
      the first character while more than one remains. */
  function NextCut(s: string, sep: string): (r: Option<(nat, nat)>)
    ensures r.Some? ==> r.value.0 + |sep| == r.value.1 <= |s| && 0 < r.value.1
    ensures r.Some? ==> s[r.value.0..r.value.1] == sep
    ensures sep != [] ==> (r.None? <==> Find(s, sep).None?)
    ensures sep != [] && r.Some? ==> r.value.0 == Find(s, sep).value
  {
    if sep == [] then
      if |s| <= 1 then None else Some((1, 1))
    else
      match Find(s, sep)
      case None => None
      case Some(p) => Some((p, p + |sep|))
  }

  /** `split_n(s, sep, k)`: at most `k` splits at the leftmost occurrences,
      the last part holding the remainder. */
  function SplitN(s: string, sep: string, k: nat): (parts: seq<string>)
    ensures 1 <= |parts| <= k + 1
    decreases |s|
  {
    if k == 0 then [s]
    else
      match NextCut(s, sep)
      case None => [s]
      case Some((a, b)) => [s[..a]] + SplitN(s[b..], sep, k - 1)
  }

  /** `split(s, sep)`: every split `split_n` could make. */
  function Split(s: string, sep: string): (parts: seq<string>)
    ensures 1 <= |parts|
    decreases |s|
  {
    match NextCut(s, sep)
    case None => [s]
    case Some((a, b)) => [s[..a]] + Split(s[b..], sep)
  }

  /** `join(sep, parts)`. */
  function Join(sep: string, parts: seq<string>): string {
    if |parts| == 0 then ""
    else if |parts| == 1 then parts[0]
    else parts[0] + sep + Join(sep, parts[1..])
  }

  /** Joining one more part puts the separator before it. */
  lemma {:induction false} JoinSnoc(sep: string, parts: seq<string>, last: string)
    requires parts != []
    ensures Join(sep, parts + [last]) == Join(sep, parts) + sep + last
    decreases |parts|
  {
    if |parts| > 1 {
      assert (parts + [last])[1..] == parts[1..] + [last];
      JoinSnoc(sep, parts[1..], last);
    }
  }

  /** A string is its pieces before, between and after two cut points. */
  lemma ThreePieces(s: string, a: nat, b: nat)
    requires a <= b <= |s|
    ensures s == s[..a] + s[a..b] + s[b..]
  {
  }

  /** Joining a part in front of others puts the separator after it. */
  lemma JoinCons(sep: string, part: string, parts: seq<string>)
    requires parts != []
    ensures Join(sep, [part] + parts) == part + sep + Join(sep, parts)
  {
    assert ([part] + parts)[1..] == parts;
  }

  /** Joining the parts of `split_n` with the separator gives back the input. */
  lemma {:induction false} JoinSplitN(s: string, sep: string, k: nat)
    ensures Join(sep, SplitN(s, sep, k)) == s
    decreases |s|
  {
    if k != 0 {
      match NextCut(s, sep)
      case None =>
        assert SplitN(s, sep, k) == [s];
      case Some((a, b)) =>
        var rest := SplitN(s[b..], sep, k - 1);
        assert SplitN(s, sep, k) == [s[..a]] + rest;
        JoinSplitN(s[b..], sep, k - 1);
        JoinCons(sep, s[..a], rest);
        ThreePieces(s, a, b);
    }
  }

  /** With as many splits allowed as there are characters, `split_n` makes
      every split `split` makes. */
  lemma {:induction false} SplitNIsSplit(s: string, sep: string, k: nat)
    requires k >= |s|
    ensures SplitN(s, sep, k) == Split(s, sep)
    decreases |s|
  {
    match NextCut(s, sep)
    case None =>
    case Some((a, b)) =>
      SplitNIsSplit(s[b..], sep, k - 1);
  }

  /** Joining the parts of `split` with the separator gives back the input. */
  lemma JoinSplit(s: string, sep: string)
    ensures Join(sep, Split(s, sep)) == s
  {
    SplitNIsSplit(s, sep, |s|);
    JoinSplitN(s, sep, |s|);
  }

  /** `sep` occurs nowhere in `s`. */
  ghost predicate Free(s: string, sep: string) {
    forall j: nat :: !OccursAt(s, sep, j)
  }

  /** The parts `split` produces on a non-empty separator contain it nowhere. */
  lemma {:induction false} SplitPartsFree(s: string, sep: string)
    requires sep != []
    ensures forall i :: 0 <= i < |Split(s, sep)| ==> Free(Split(s, sep)[i], sep)
    decreases |s|
  {
    match Find(s, sep)
    case None =>
    case Some(p) =>
      SplitPartsFree(s[p + |sep|..], sep);
      var parts := Split(s, sep);
      assert parts == [s[..p]] + Split(s[p + |sep|..], sep);
      forall j: nat
        ensures !OccursAt(s[..p], sep, j)
      {
        if j + |sep| <= p {
          assert s[..p] + s[p..] == s;
          OccursInPrefix(s[..p], s[p..], sep, j);
        }
      }
  }

  /** No proper suffix of `sep` is also a prefix of it, so two occurrences
      of `sep` never overlap (true of `"\r\n"`, `": "` and every single
      character). */
  ghost predicate BorderFree(sep: string) {
    forall d :: 0 < d < |sep| ==> sep[d..] != sep[..|sep| - d]
  }

  lemma BorderFreeSeparators()
    ensures BorderFree(CRLF) && BorderFree(": ")
    ensures forall c: char :: BorderFree([c])
  {
    forall d | 0 < d < |CRLF|
      ensures CRLF[d..] != CRLF[..|CRLF| - d]
    {
      assert CRLF[d..][0] != CRLF[..|CRLF| - d][0];
    }
    forall d | 0 < d < |": "|
      ensures ": "[d..] != ": "[..|": "| - d]
    {
      assert ": "[d..][0] != ": "[..|": "| - d][0];
    }
  }

  /** An occurrence straddling the end of `a` in `a + sep + b` shows a
      border of `sep`. */
  lemma StraddleIsBorder(a: string, sep: string, b: string, j: nat)
    requires j < |a| < j + |sep|
    ensures OccursAt(a + sep + b, sep, j) ==> sep[|a| - j..] == sep[..|sep| - (|a| - j)]
  {
    var s := a + sep + b;
    var d := |a| - j;
    if OccursAt(s, sep, j) {
      assert s[|a|..|a| + |sep|] == sep;
      assert sep[d..] == s[|a|..j + |sep|];
      assert s[|a|..j + |sep|] == s[|a|..|a| + |sep|][..|sep| - d];
    }
  }

  lemma NoStraddle(a: string, sep: string, b: string, j: nat)
    requires BorderFree(sep) && j < |a| < j + |sep|
    ensures !OccursAt(a + sep + b, sep, j)
  {
    StraddleIsBorder(a, sep, b, j);
  }

  /** With a border-free separator absent from `a`, the first occurrence in
      `a + sep + b` is the one right after `a`. */
  lemma FindAtJoin(a: string, sep: string, b: string)
    requires BorderFree(sep) && Free(a, sep)
    ensures Find(a + sep + b, sep) == Some(|a|)
  {
    var s := a + sep + b;
    assert s[|a|..|a| + |sep|] == sep;
    forall j: nat | j < |a|
      ensures !OccursAt(s, sep, j)
    {
      if j + |sep| <= |a| {
        assert s == a + (sep + b);
        OccursInPrefix(a, sep + b, sep, j);
      } else {
        NoStraddle(a, sep, b, j);
      }
    }
    FindIsFirst(s, sep, |a|);
  }

  /** Splitting on a border-free separator distributes over a join at that
      separator: the lines of `a + "\n" + b` are the lines of `a` followed
      by the lines of `b`. */
  lemma {:induction false} SplitAcrossSeparator(a: string, sep: string, b: string)
    requires sep != [] && BorderFree(sep)
    ensures Split(a + sep + b, sep) == Split(a, sep) + Split(b, sep)
    decreases |a|
  {
    var s := a + sep + b;
    match Find(a, sep)
    case None =>
      FindAtJoin(a, sep, b);
      assert s[..|a|] == a;
      assert s[|a| + |sep|..] == b;
    case Some(p) =>
      assert s == a + (sep + b);
      FindAppend(a, sep + b, sep);
      assert s[..p] == a[..p];
      assert s[p + |sep|..] == a[p + |sep|..] + sep + b;
      SplitAcrossSeparator(a[p + |sep|..], sep, b);
  }

  /** At most `k` splits of `a + sep + b` cut first right after `a`. */
  lemma SplitNAtJoin(a: string, sep: string, b: string, k: nat)
    requires sep != [] && BorderFree(sep) && Free(a, sep) && k >= 1
    ensures SplitN(a + sep + b, sep, k) == [a] + SplitN(b, sep, k - 1)
  {
    var s := a + sep + b;
    FindAtJoin(a, sep, b);
    assert s[..|a|] == a;
    assert s[|a| + |sep|..] == b;
  }

  /** Splitting a join of separator-free parts gives the parts back. */
  lemma {:induction false} SplitJoin(parts: seq<string>, sep: string)
    requires sep != [] && BorderFree(sep) && |parts| >= 1
    requires forall i :: 0 <= i < |parts| ==> Free(parts[i], sep)
    ensures Split(Join(sep, parts), sep) == parts
  {
    if |parts| == 1 {
      assert Find(parts[0], sep).None?;
    } else {
      var tail := Join(sep, parts[1..]);
      assert Join(sep, parts) == parts[0] + sep + tail;
      assert Free(parts[0], sep);
      assert forall i :: 0 <= i < |parts[1..]| ==> Free(parts[1..][i], sep) by {
        forall i | 0 <= i < |parts[1..]| ensures Free(parts[1..][i], sep) {
          assert parts[1..][i] == parts[i + 1];
        }
      }
      SplitJoin(parts[1..], sep);
      FindAtJoin(parts[0], sep, tail);
      var s := parts[0] + sep + tail;
      assert s[..|parts[0]|] == parts[0];
      assert s[|parts[0]| + |sep|..] == tail;
      assert Split(s, sep) == [parts[0]] + Split(tail, sep);
    }
  }

  /** Gluing two separator-free strings with a character the separator
      does not contain keeps the result separator-free. */
  lemma FreeAroundChar(a: string, c: char, b: string, sep: string)
    requires Free(a, sep) && Free(b, sep)
    requires forall i :: 0 <= i < |sep| ==> sep[i] != c
    ensures Free(a + [c] + b, sep)
  {
    var s := a + [c] + b;
    forall j: nat
      ensures !OccursAt(s, sep, j)
    {
      if j + |sep| <= |a| {
        assert s == a + ([c] + b);
        OccursInPrefix(a, [c] + b, sep, j);
      } else if j >= |a| + 1 {
        OccursInSuffix(a + [c], b, sep, j - |a| - 1);
      } else if j + |sep| <= |s| {
        assert s[j..j + |sep|][|a| - j] == c;
      }
    }
  }

  // ---------------------------------------------------------------------
  // The blank line after a block of lines
  // ---------------------------------------------------------------------

  /** No blank line starts inside a non-empty CRLF-free line followed by a
      line ending: each candidate either lies within the line, where it
      would hold a CRLF, or needs a `\n` where the ending has its `\r`. */
  lemma NoBlankLineInLine(x: string, u: string, j: nat)
    requires x != "" && Free(x, CRLF) && j < |x|
    ensures !OccursAt(x + CRLF + u, CRLFCRLF, j)
  {
    var s := x + CRLF + u;
    if j + 4 <= |s| {
      var w := s[j..j + 4];
      if j + 2 <= |x| {
        assert !OccursAt(x, CRLF, j);
        assert w[..2] == x[j..j + 2];
        assert CRLFCRLF[..2] == CRLF;
      } else {
        assert w[1] == s[|x|] == '\r';
        assert CRLFCRLF[1] == '\n';
      }
    }
  }

  /** A non-empty CRLF-free line whose successor starts with `\r` does not
      itself start a CRLF. */
  lemma NoCrlfAtStart(x: string, t: string)
    requires x != "" && Free(x, CRLF) && t != [] && t[0] == '\r'
    ensures !OccursAt(x + t, CRLF, 0)
  {
    if |x| >= 2 {
      assert (x + t)[0..2] == x[0..2];
      assert !OccursAt(x, CRLF, 0);
    } else {
      assert (x + t)[1] == '\r';
    }
  }

  /** No blank line starts at a line ending that is followed by a
      non-empty CRLF-free line. */
  lemma NoBlankLineAtEnding(x: string, y: string, v: string)
    requires y != "" && Free(y, CRLF) && v != [] && v[0] == '\r'
    ensures !OccursAt(x + CRLF + (y + v), CRLFCRLF, |x|)
  {
    var s := x + CRLF + (y + v);
    NoCrlfAtStart(y, v);
    assert s[|x|..|x| + 4][2..] == (y + v)[0..2];
  }

  /** A line, CRLF, and a text `y + v` with no blank line among its first
      `n` positions has no blank line before position `|x| + 2 + n`. */
  lemma NoEarlyBlankLine(x: string, y: string, v: string, n: nat, j: nat)
    requires x != "" && Free(x, CRLF) && y != "" && Free(y, CRLF) && v != [] && v[0] == '\r'
    requires forall k: nat :: k < n ==> !OccursAt(y + v, CRLFCRLF, k)
    requires j < |x| + 2 + n
    ensures !OccursAt(x + CRLF + (y + v), CRLFCRLF, j)
  {
    var s := x + CRLF + (y + v);
    if j < |x| {
      NoBlankLineInLine(x, y + v, j);
    } else if j == |x| {
      NoBlankLineAtEnding(x, y, v);
    } else if j == |x| + 1 {
      assert s[j] == '\n';
    } else {
      assert s == (x + CRLF) + (y + v);
      OccursInSuffix(x + CRLF, y + v, CRLFCRLF, j - |x| - 2);
    }
  }

  /** In a block of non-empty CRLF-free lines joined by CRLF and followed
      by a blank line, that blank line is the first. */
  lemma {:induction false} FirstBlankLine(lines: seq<string>)
    requires lines != []
    requires forall i :: 0 <= i < |lines| ==> lines[i] != "" && Free(lines[i], CRLF)
    ensures Find(Join(CRLF, lines) + CRLFCRLF, CRLFCRLF) == Some(|Join(CRLF, lines)|)
    decreases |lines|
  {
    var block := Join(CRLF, lines);
    var s := block + CRLFCRLF;
    assert s[|block|..|block| + 4] == CRLFCRLF;
    var x := lines[0];
    if |lines| == 1 {
      assert s == x + CRLF + CRLF;
      forall j: nat | j < |block|
        ensures !OccursAt(s, CRLFCRLF, j)
      {
        NoBlankLineInLine(x, CRLF, j);
      }
    } else {
      var rest := Join(CRLF, lines[1..]);
      var t := rest + CRLFCRLF;
      assert block == x + CRLF + rest;
      assert s == x + CRLF + t;
      assert forall i :: 0 <= i < |lines[1..]| ==> lines[1..][i] == lines[i + 1];
      FirstBlankLine(lines[1..]);
      var v := if |lines| == 2 then CRLFCRLF else CRLF + Join(CRLF, lines[2..]) + CRLFCRLF;
      assert t == lines[1] + v by {
        if |lines| > 2 {
          assert lines[1..][1..] == lines[2..];
        }
      }
      forall j: nat | j < |block|
        ensures !OccursAt(s, CRLFCRLF, j)
      {
        NoEarlyBlankLine(x, lines[1], v, |rest|, j);
      }
    }
    FindIsFirst(s, CRLFCRLF, |block|);
  }

  /** The text before the first occurrence contains no occurrence. */
  lemma BeforeFirstFree(s: string, sep: string, p: nat)
    requires sep != [] && Find(s, sep) == Some(p)
    ensures Free(s[..p], sep)
  {
    forall j: nat
      ensures !OccursAt(s[..p], sep, j)
    {
      if j + |sep| <= p {
        assert s[..p] + s[p..] == s;
        OccursInPrefix(s[..p], s[p..], sep, j);
      }
    }
  }

  /** The parts `split_n` produces before the last contain no separator. */
  lemma {:induction false} SplitNPartsFree(s: string, sep: string, k: nat)
    requires sep != []
    ensures forall i :: 0 <= i < |SplitN(s, sep, k)| - 1 ==> Free(SplitN(s, sep, k)[i], sep)
    decreases |s|
  {
    if k > 0 {
      match NextCut(s, sep)
      case None =>
      case Some((a, b)) =>
        SplitNPartsFree(s[b..], sep, k - 1);
        var rest := SplitN(s[b..], sep, k - 1);
        var parts := SplitN(s, sep, k);
        assert parts == [s[..a]] + rest;
        BeforeFirstFree(s, sep, a);
        assert forall i :: 1 <= i < |parts| ==> parts[i] == rest[i - 1];
    }
  }

  // ---------------------------------------------------------------------
  // ends_with, lower-casing
  // ---------------------------------------------------------------------

  /** `ends_with(s, suffix)`: `s` is some string followed by `suffix`. */
  function EndsWith(s: string, suffix: string): (r: bool)
    ensures r <==> exists k :: 0 <= k <= |s| && s[k..] == suffix
  {
    if |suffix| <= |s| && s[|s| - |suffix|..] == suffix then true
    else
      assert forall k :: 0 <= k <= |s| && s[k..] == suffix ==> k == |s| - |suffix|;
      false
  }

  /** `to_lowercase` (C locale `tolower`): only `A`-`Z` change. */
  function LowerChar(c: char): char {
    if 'A' <= c <= 'Z' then (c as int + 32) as char else c
  }

  function ToLower(s: string): (r: string)
    ensures |r| == |s|
  {
    seq(|s|, i requires 0 <= i < |s| => LowerChar(s[i]))
  }

  /** Keys equal up to ASCII case. */
  predicate SameIgnoringCase(a: string, b: string) {
    ToLower(a) == ToLower(b)
  }

  // ---------------------------------------------------------------------
  // canonicalize_path
  // ---------------------------------------------------------------------

  /** Applies path components to a directory stack: empty and `.` parts are
      skipped, `..` pops, and popping the root means the path escaped it. */
  function Resolve(components: seq<string>, stack: seq<string>): (r: Option<seq<string>>)
    decreases |components|
  {
    if components == [] then Some(stack)
    else
      var c := components[0];
      if c == "" || c == "." then Resolve(components[1..], stack)
      else if c == ".." then
        if stack == [] then None else Resolve(components[1..], stack[..|stack| - 1])
      else Resolve(components[1..], stack + [c])
  }

  /** A directory stack holds only real names: no `/`, and none of ``,
      `.`, `..`. */
  ghost predicate CanonicalNames(stack: seq<string>) {
    forall i :: 0 <= i < |stack| ==>
      stack[i] != "" && stack[i] != "." && stack[i] != ".." && Free(stack[i], "/")
  }

  lemma {:induction false} ResolveCanonical(components: seq<string>, stack: seq<string>)
    requires CanonicalNames(stack)
    requires forall i :: 0 <= i < |components| ==> Free(components[i], "/")
    ensures Resolve(components, stack).Some? ==> CanonicalNames(Resolve(components, stack).value)
    decreases |components|
  {
    if components != [] {
      var c := components[0];
      if c == "" || c == "." {
        ResolveCanonical(components[1..], stack);
      } else if c == ".." {
        if stack != [] {
          ResolveCanonical(components[1..], stack[..|stack| - 1]);
        }
      } else {
        ResolveCanonical(components[1..], stack + [c]);
      }
    }
  }

  /** Resolving canonical names onto a stack pushes them all. */
  lemma {:induction false} ResolveNames(names: seq<string>, stack: seq<string>)
    requires CanonicalNames(names)
    ensures Resolve(names, stack) == Some(stack + names)
    decreases |names|
  {
    if names == [] {
      assert stack + names == stack;
    } else {
      assert names[0] != "" && names[0] != "." && names[0] != "..";
      assert CanonicalNames(names[1..]) by {
        forall i | 0 <= i < |names[1..]|
          ensures names[1..][i] != "" && names[1..][i] != "." && names[1..][i] != ".."
          ensures Free(names[1..][i], "/")
        {
          assert names[1..][i] == names[i + 1];
        }
      }
      ResolveNames(names[1..], stack + [names[0]]);
      assert stack + [names[0]] + names[1..] == stack + names;
    }
  }

  /** `canonicalize_path`: resolves `.` and `..`, collapses repeated `/`,
      adds a leading `/`, drops a trailing `/`, and gives `""` for the empty
      path and for a path that climbs above the root. */
  function CanonicalizePath(path: string): string {
    if path == "" then ""
    else
      match Resolve(Split(path, "/"), [])
      case None => ""
      case Some(stack) => "/" + Join("/", stack)
  }

  /** A canonical path is `""` or `/` followed by real names joined by `/`. */
  lemma CanonicalShape(path: string)
    ensures CanonicalizePath(path) == "" ||
            exists stack :: CanonicalNames(stack) && CanonicalizePath(path) == "/" + Join("/", stack)
  {
    if path != "" {
      SplitPartsFree(path, "/");
      ResolveCanonical(Split(path, "/"), []);
    }
  }

  lemma SplitOfEmpty(sep: string)
    requires sep != []
    ensures Split("", sep) == [""]
  {
    assert !OccursAt("", sep, 0);
  }

  /** The root path is canonical. */
  lemma CanonicalRoot()
    ensures CanonicalizePath("/") == "/"
  {
    assert "/" == "" + "/" + "";
    BorderFreeSeparators();
    SplitAcrossSeparator("", "/", "");
    SplitOfEmpty("/");
    assert Split("/", "/") == ["", ""];
    assert Resolve(["", ""], []) == Resolve([""], []);
  }

  /** Splitting `/` followed by a join of real names. */
  lemma SplitRooted(stack: seq<string>)
    requires CanonicalNames(stack) && stack != []
    ensures Split("/" + Join("/", stack), "/") == [""] + stack
  {
    assert "/" + Join("/", stack) == "" + "/" + Join("/", stack);
    BorderFreeSeparators();
    SplitAcrossSeparator("", "/", Join("/", stack));
    SplitOfEmpty("/");
    SplitJoin(stack, "/");
  }

  /** A path that is already `/` followed by real names is left alone. */
  lemma CanonicalFixedPoint(stack: seq<string>)
    requires CanonicalNames(stack)
    ensures CanonicalizePath("/" + Join("/", stack)) == "/" + Join("/", stack)
  {
    if stack == [] {
      CanonicalRoot();
    } else {
      SplitRooted(stack);
      ResolveNames(stack, []);
      var path := "/" + Join("/", stack);
      assert path != "";
      assert ([""] + stack)[0] == "" && ([""] + stack)[1..] == stack;
      assert Resolve([""] + stack, []) == Resolve(stack, []);
      assert CanonicalizePath(path) == "/" + Join("/", [] + stack);
      assert [] + stack == stack;
    }
  }

  /** Canonicalizing twice changes nothing. */
  lemma CanonicalizeIdempotent(path: string)
    ensures CanonicalizePath(CanonicalizePath(path)) == CanonicalizePath(path)
  {
    if path != "" {
      SplitPartsFree(path, "/");
      ResolveCanonical(Split(path, "/"), []);
      match Resolve(Split(path, "/"), [])
      case None =>
      case Some(stack) => CanonicalFixedPoint(stack);
    }
  }

  /** Resolving a concatenation resolves the first part, then the second
      from where the first left the stack; an escape in the first part is
      final. */
  lemma {:induction false} ResolveAppend(xs: seq<string>, ys: seq<string>, stack: seq<string>)
    ensures Resolve(xs + ys, stack) ==
            match Resolve(xs, stack)
            case None => None
            case Some(t) => Resolve(ys, t)
    decreases |xs|
  {
    if xs == [] {
      assert xs + ys == ys;
    } else {
      assert (xs + ys)[0] == xs[0];
      assert (xs + ys)[1..] == xs[1..] + ys;
      var c := xs[0];
      if c == "" || c == "." {
        ResolveAppend(xs[1..], ys, stack);
      } else if c == ".." {
        if stack != [] {
          ResolveAppend(xs[1..], ys, stack[..|stack| - 1]);
        }
      } else {
        ResolveAppend(xs[1..], ys, stack + [c]);
      }
    }
  }

  /** The components of `a + "/" + b` are those of `a` then those of `b`. */
  lemma SplitSlash(a: string, b: string)
    ensures Split(a + "/" + b, "/") == Split(a, "/") + Split(b, "/")
  {
    BorderFreeSeparators();
    SplitAcrossSeparator(a, "/", b);
  }

  /** Canonicalizing the components `xs + mid + ys`, where resolving `mid`
      is the same as resolving `alt`, gives what `xs + alt + ys` gives. */
  lemma ResolveReplace(xs: seq<string>, mid: seq<string>, alt: seq<string>, ys: seq<string>)
    requires forall t :: Resolve(mid, t) == Resolve(alt, t)
    ensures Resolve(xs + mid + ys, []) == Resolve(xs + alt + ys, [])
  {
    ResolveAppend(xs, mid + ys, []);
    ResolveAppend(xs, alt + ys, []);
    assert xs + mid + ys == xs + (mid + ys);
    assert xs + alt + ys == xs + (alt + ys);
    match Resolve(xs, [])
    case None =>
    case Some(t) =>
      ResolveAppend(mid, ys, t);
      ResolveAppend(alt, ys, t);
  }

  /** A trailing `/` is dropped (test.cpp:160-161). */
  lemma CanonicalizeTrailingSlash(p: string)
    requires p != ""
    ensures CanonicalizePath(p + "/") == CanonicalizePath(p)
  {
    SplitSlash(p, "");
    SplitOfEmpty("/");
    assert p + "/" == p + "/" + "";
    assert Split(p, "/") + [""] == Split(p, "/") + [""] + [];
    assert Split(p, "/") == Split(p, "/") + [] + [];
    ResolveReplace(Split(p, "/"), [""], [], []);
  }

  lemma DoubleSlashComponents(a: string, b: string)
    ensures Split(a + "//" + b, "/") == Split(a, "/") + [""] + Split(b, "/")
  {
    assert a + "//" + b == a + "/" + ("" + "/" + b);
    SplitSlash(a, "" + "/" + b);
    SplitSlash("", b);
    SplitOfEmpty("/");
  }

  /** Repeated `/` collapse to one (test.cpp:162). */
  lemma CanonicalizeRepeatedSlash(a: string, b: string)
    ensures CanonicalizePath(a + "//" + b) == CanonicalizePath(a + "/" + b)
  {
    DoubleSlashComponents(a, b);
    SplitSlash(a, b);
    var xs := Split(a, "/");
    var ys := Split(b, "/");
    assert xs + ys == xs + [] + ys;
    ResolveReplace(xs, [""], [], ys);
  }

  lemma SplitWhole(s: string, sep: string)
    requires sep != [] && Free(s, sep)
    ensures Split(s, sep) == [s]
  {
  }

  /** A string of characters other than `c` does not contain `[c]`. */
  lemma FreeOfChar(s: string, c: char)
    requires forall j :: 0 <= j < |s| ==> s[j] != c
    ensures Free(s, [c])
  {
    forall j: nat
      ensures !OccursAt(s, [c], j)
    {
      if j + 1 <= |s| {
        assert s[j..j + 1][0] == s[j];
      }
    }
  }

  /** A string with no character equal to the first character of `sep`
      contains no occurrence of `sep`. */
  lemma FreeOfHead(s: string, sep: string)
    requires sep != []
    requires forall j :: 0 <= j < |s| ==> s[j] != sep[0]
    ensures Free(s, sep)
  {
    forall j: nat
      ensures !OccursAt(s, sep, j)
    {
      if j + |sep| <= |s| {
        assert s[j..j + |sep|][0] == s[j];
      }
    }
  }

  /** In `a + sep + b` the first `sep` is the one after `a` when no
      character of `a` can start `sep`. */
  lemma FindAfterHeadFree(a: string, sep: string, b: string)
    requires sep != []
    requires forall j :: 0 <= j < |a| ==> a[j] != sep[0]
    ensures Find(a + sep + b, sep) == Some(|a|)
  {
    var s := a + sep + b;
    forall j: nat | j < |a|
      ensures !OccursAt(s, sep, j)
    {
      if j + |sep| <= |s| {
        assert s[j..j + |sep|][0] == s[j] == a[j];
      }
    }
    assert s[|a|..|a| + |sep|] == sep;
    FindIsFirst(s, sep, |a|);
  }

  /** The buffered readers' step on a two-character separator `xy`: it
      hands out `a` and keeps `b` when every `x` in `a` is followed, inside
      `a`, by something other than `y`. */
  lemma SplitFirstAfterPairFree(a: string, x: char, y: char, b: string)
    requires forall j :: 0 <= j < |a| ==> a[j] != x || (j + 1 < |a| && a[j + 1] != y)
    ensures SplitFirst(a + [x, y] + b, [x, y]) == Some((a, b))
  {
    var s := a + [x, y] + b;
    forall j: nat | j < |a|
      ensures !OccursAt(s, [x, y], j)
    {
      if j + 2 <= |s| {
        assert a[j] != x || (j + 1 < |a| && a[j + 1] != y);
        assert s[j..j + 2] == [s[j], s[j + 1]];
        assert s[j] == a[j];
        assert j + 1 == |a| ==> s[j + 1] == x;
        if j + 1 < |a| {
          assert s[j + 1] == a[j + 1];
        }
      }
    }
    assert s[|a|..|a| + 2] == [x, y];
    FindIsFirst(s, [x, y], |a|);
    assert s[..|a|] == a;
    assert s[|a| + 2..] == b;
  }

  /** The buffered readers' step hands out `a` and keeps `b`. */
  lemma SplitFirstAfterHeadFree(a: string, sep: string, b: string)
    requires sep != []
    requires forall j :: 0 <= j < |a| ==> a[j] != sep[0]
    ensures SplitFirst(a + sep + b, sep) == Some((a, b))
  {
    FindAfterHeadFree(a, sep, b);
    assert (a + sep + b)[..|a|] == a;
    assert (a + sep + b)[|a| + |sep|..] == b;
  }

  /** `a + sep + b` splits into exactly `[a, b]` when no character of `a`
      can start `sep` and `b` does not contain it; unlike `FindAtJoin` this
      needs nothing of the separator's borders. */
  lemma SplitPair(a: string, sep: string, b: string)
    requires sep != []
    requires forall j :: 0 <= j < |a| ==> a[j] != sep[0]
    requires Free(b, sep)
    ensures Split(a + sep + b, sep) == [a, b]
  {
    var s := a + sep + b;
    FindAfterHeadFree(a, sep, b);
    assert s[..|a|] == a;
    assert s[|a| + |sep|..] == b;
    SplitWhole(b, sep);
  }

  /** A leading separator-free component is split off first. */
  lemma SplitLead(mid: string, b: string)
    requires Free(mid, "/")
    ensures Split(mid + "/" + b, "/") == [mid] + Split(b, "/")
  {
    SplitSlash(mid, b);
    SplitWhole(mid, "/");
  }

  lemma DotComponents()
    ensures Free(".", "/") && Free("..", "/")
  {
    FreeOfChar(".", '/');
    FreeOfChar("..", '/');
  }

  lemma DotComponentsOf(a: string, b: string)
    ensures Split(a + "/./" + b, "/") == Split(a, "/") + ["."] + Split(b, "/")
  {
    assert a + "/./" + b == a + "/" + ("." + "/" + b);
    DotComponents();
    SplitSlash(a, "." + "/" + b);
    SplitLead(".", b);
  }

  /** A `.` component is dropped (test.cpp:155). */
  lemma CanonicalizeDot(a: string, b: string)
    ensures CanonicalizePath(a + "/./" + b) == CanonicalizePath(a + "/" + b)
  {
    DotComponentsOf(a, b);
    SplitSlash(a, b);
    var xs := Split(a, "/");
    var ys := Split(b, "/");
    assert xs + ys == xs + [] + ys;
    ResolveReplace(xs, ["."], [], ys);
  }

  /** Entering a real directory and leaving it again. */
  lemma PushPop(name: string, t: seq<string>)
    requires CanonicalNames([name])
    ensures Resolve([name, ".."], t) == Some(t)
  {
    assert [name][0] == name;
    var cs := [name, ".."];
    assert cs[0] == name && cs[1..] == [".."];
    assert Resolve(cs, t) == Resolve([".."], t + [name]);
    assert [".."][0] == ".." && [".."][1..] == [];
    assert (t + [name])[..|t + [name]| - 1] == t;
    assert Resolve([".."], t + [name]) == Resolve([], t);
  }

  lemma ParentComponents(a: string, name: string, b: string)
    requires Free(name, "/")
    ensures Split(a + "/" + name + "/../" + b, "/") ==
            Split(a, "/") + [name, ".."] + Split(b, "/")
  {
    assert a + "/" + name + "/../" + b == a + "/" + (name + "/" + (".." + "/" + b));
    DotComponents();
    SplitSlash(a, name + "/" + (".." + "/" + b));
    SplitLead(name, ".." + "/" + b);
    SplitLead("..", b);
    assert [name] + ([".."] + Split(b, "/")) == [name, ".."] + Split(b, "/");
  }

  /** `name/..` cancels out (test.cpp:156-157). */
  lemma CanonicalizeParent(a: string, name: string, b: string)
    requires CanonicalNames([name])
    ensures CanonicalizePath(a + "/" + name + "/../" + b) == CanonicalizePath(a + "/" + b)
  {
    assert Free([name][0], "/");
    ParentComponents(a, name, b);
    SplitSlash(a, b);
    var xs := Split(a, "/");
    var ys := Split(b, "/");
    assert xs + ys == xs + [] + ys;
    forall t ensures Resolve([name, ".."], t) == Resolve([], t) {
      PushPop(name, t);
    }
    ResolveReplace(xs, [name, ".."], [], ys);
  }

  /** Climbing above the root yields `""` (test.cpp:164-165). */
  lemma CanonicalizeEscape(b: string)
    ensures CanonicalizePath("/../" + b) == ""
  {
    assert "/../" + b == "" + "/" + (".." + "/" + b);
    DotComponents();
    SplitSlash("", ".." + "/" + b);
    SplitLead("..", b);
    SplitOfEmpty("/");
    var comps := [""] + ([".."] + Split(b, "/"));
    assert Split("/../" + b, "/") == comps;
    assert comps[0] == "" && comps[1..] == [".."] + Split(b, "/");
    assert Resolve(comps, []) == Resolve([".."] + Split(b, "/"), []);
    assert ([".."] + Split(b, "/"))[0] == "..";
  }

  /** A missing leading `/` is supplied (test.cpp:159). */
  lemma CanonicalizeLeadingSlash(p: string)
    requires p != ""
    ensures CanonicalizePath("/" + p) == CanonicalizePath(p)
  {
    assert "/" + p == "" + "/" + p;
    SplitSlash("", p);
    SplitOfEmpty("/");
    var xs := Split(p, "/");
    assert Split("/" + p, "/") == [] + [""] + xs;
    assert xs == [] + [] + xs;
    ResolveReplace([], [""], [], xs);
  }

  /** `split_n` with no splits allowed returns the whole string
      (test.cpp:131-133). */
  lemma SplitNZero(s: string, sep: string)
    ensures SplitN(s, sep, 0) == [s]
  {
    JoinSplitN(s, sep, 0);
  }

  /** A trailing separator leaves a trailing empty part (test.cpp:142). */
  lemma SplitTrailingSeparator(a: string, sep: string)
    requires sep != [] && BorderFree(sep)
    ensures Split(a + sep, sep) == Split(a, sep) + [""]
  {
    assert a + sep == a + sep + "";
    SplitAcrossSeparator(a, sep, "");
    SplitOfEmpty(sep);
  }

  // ---------------------------------------------------------------------
  // Decimal rendering (`std::to_string`, `operator<<` on `int`)
  // ---------------------------------------------------------------------

  predicate IsDigit(c: char) {
    '0' <= c <= '9'
  }

  function DigitChar(d: nat): (c: char)
    requires d < 10
    ensures IsDigit(c)
  {
    ('0' as int + d) as char
  }

  /** The decimal digits of `n`, most significant first, without leading
      zeros. */
  function NatToString(n: nat): (r: string)
    ensures |r| >= 1
    ensures forall i :: 0 <= i < |r| ==> IsDigit(r[i])
    decreases n
  {
    if n < 10 then [DigitChar(n)] else NatToString(n / 10) + [DigitChar(n % 10)]
  }

  function DigitValue(c: char): nat
    requires IsDigit(c)
  {
    c as int - '0' as int
  }

  /** The number a string of digits denotes. */
  function DecimalValue(s: string): nat
    requires forall i :: 0 <= i < |s| ==> IsDigit(s[i])
    decreases |s|
  {
    if s == [] then 0
    else DecimalValue(s[..|s| - 1]) * 10 + DigitValue(s[|s| - 1])
  }

  /** Reading back the rendered digits gives the number. */
  lemma {:induction false} DecimalRoundTrip(n: nat)
    ensures DecimalValue(NatToString(n)) == n
    decreases n
  {
    var r := NatToString(n);
    if n >= 10 {
      DecimalRoundTrip(n / 10);
      assert r[..|r| - 1] == NatToString(n / 10);
    }
  }

  /** An `int` as `operator<<` writes it: a `-` before negative values. */
  function IntToString(n: int): (r: string)
    ensures |r| >= 1
  {
    if n < 0 then "-" + NatToString(-n) else NatToString(n)
  }
}
