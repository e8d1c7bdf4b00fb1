/**
 * The parts of java.lang.String and java.lang.Integer that the header parser and the
 * report serialisers rely on: startsWith, indexOf, trim, split("\\s+"), String.join,
 * String.valueOf(int) and Integer.parseInt. Java strings are modelled as `seq<char>`.
 */
module JavaStrings {
  import opened Wrappers

  /** Bounds of Java's 32-bit `int`. */
  const MinInt: int := -0x8000_0000
  const MaxInt: int := 0x7FFF_FFFF

  /** The regular-expression class `\s`: space, tab, newline, vertical tab, form feed, carriage return. */
  predicate IsWhitespace(c: char) {
    c == ' ' || 9 <= c as int <= 13
  }

  predicate NoWhitespace(s: string) {
    forall i :: 0 <= i < |s| ==> !IsWhitespace(s[i])
  }

  /** The characters `String.trim` removes: every code point up to U+0020. */
  predicate IsTrimmable(c: char) {
    c <= ' '
  }

  predicate StartsWith(s: string, prefix: string) {
    |prefix| <= |s| && s[..|prefix|] == prefix
  }

  predicate OccursAt(s: string, p: string, k: int) {
    0 <= k && k + |p| <= |s| && s[k..k + |p|] == p
  }

  /** An occurrence of `p` at `k` splits `s` into the text before it, `p` and the rest. */
  lemma OccurrenceSplits(s: string, p: string, k: int)
    requires OccursAt(s, p, k)
    ensures s[..k + |p|] == s[..k] + p
    ensures s == s[..k] + p + s[k + |p|..]
  {
    assert s[..k + |p|] == s[..k] + s[k..k + |p|];
    assert s == s[..k + |p|] + s[k + |p|..];
  }

  /** An occurrence stays where it is when text is appended. */
  lemma OccursBefore(a: string, b: string, e: string, off: int)
    requires OccursAt(a, e, off)
    ensures OccursAt(a + b, e, off)
  {
    assert (a + b)[off..off + |e|] == a[off..off + |e|];
  }

  /** The appended text occurs at the end. */
  lemma OccursAtEnd(a: string, b: string)
    ensures OccursAt(a + b, b, |a|)
  {
    assert (a + b)[|a|..|a| + |b|] == b;
  }

  predicate NoOccurrence(s: string, p: string) {
    forall k :: 0 <= k <= |s| - |p| ==> !OccursAt(s, p, k)
  }

  // ---------------------------------------------------------------- indexOf

  function IndexOfFrom(s: string, p: string, from: nat): (r: int)
    requires from <= |s|
    ensures r == -1 || (from <= r && OccursAt(s, p, r))
    ensures forall k :: from <= k && (r == -1 || k < r) ==> !OccursAt(s, p, k)
    decreases |s| - from
  {
    if from + |p| > |s| then -1
    else if s[from..from + |p|] == p then from
    else IndexOfFrom(s, p, from + 1)
  }

  /** `s.indexOf(p)`: the index of the first occurrence of `p` in `s`, or -1 when there is none. */
  function IndexOf(s: string, p: string): (r: int)
    ensures r == -1 <==> NoOccurrence(s, p)
    ensures r != -1 ==> OccursAt(s, p, r) && forall k :: 0 <= k < r ==> !OccursAt(s, p, k)
  {
    IndexOfFrom(s, p, 0)
  }

  /** An occurrence of `p` with none before it is what `indexOf` finds. */
  lemma IndexOfFirstOccurrence(s: string, p: string, i: nat)
    requires OccursAt(s, p, i)
    requires forall k :: 0 <= k < i ==> !OccursAt(s, p, k)
    ensures IndexOf(s, p) == i
  {
    assert !NoOccurrence(s, p);
  }

  /** `p` cannot occur across a separator character that `p` does not contain. */
  lemma NoOccurrenceAcross(a: string, c: char, b: string, p: string)
    requires NoOccurrence(a, p) && NoOccurrence(b, p) && c !in p
    ensures NoOccurrence(a + [c] + b, p)
  {
    var s := a + [c] + b;
    forall k | 0 <= k <= |s| - |p|
      ensures !OccursAt(s, p, k)
    {
      if k + |p| <= |a| {
        assert s[k..k + |p|] == a[k..k + |p|];
        assert !OccursAt(a, p, k);
      } else if k > |a| {
        assert s[k..k + |p|] == b[k - |a| - 1..k - |a| - 1 + |p|];
        assert !OccursAt(b, p, k - |a| - 1);
      } else {
        assert s[k..k + |p|][|a| - k] == c;
        assert p[|a| - k] != c;
      }
    }
  }

  /** A string without the first character of `p` holds no occurrence of `p`. */
  lemma NoOccurrenceWithoutHead(a: string, b: string, p: string)
    requires |p| > 0 && p[0] !in a && NoOccurrence(b, p)
    ensures NoOccurrence(a + b, p)
  {
    var s := a + b;
    forall k | 0 <= k <= |s| - |p|
      ensures !OccursAt(s, p, k)
    {
      if k < |a| {
        assert s[k..k + |p|][0] == a[k];
      } else {
        assert s[k..k + |p|] == b[k - |a|..k - |a| + |p|];
        assert !OccursAt(b, p, k - |a|);
      }
    }
  }

  /**
   * In `a + [c] + p + rest`, with no `p` in `a` and `c` not in `p`, the first `p` is the
   * one right after the separator.
   */
  lemma IndexOfAfterSeparator(a: string, c: char, p: string, rest: string)
    requires NoOccurrence(a, p) && c !in p
    ensures IndexOf(a + [c] + p + rest, p) == |a| + 1
  {
    var s := a + [c] + p + rest;
    assert s[|a| + 1..|a| + 1 + |p|] == p;
    forall k | 0 <= k < |a| + 1
      ensures !OccursAt(s, p, k)
    {
      if k + |p| <= |a| {
        assert s[k..k + |p|] == a[k..k + |p|];
        assert !OccursAt(a, p, k);
      } else if k + |p| <= |s| {
        assert s[k..k + |p|][|a| - k] == c;
        assert p[|a| - k] != c;
      }
    }
    IndexOfFirstOccurrence(s, p, |a| + 1);
  }

  /** In `line + " " + p + rest`, with no `p` in `line`, the first `p` follows the space. */
  lemma IndexOfAfterSpace(line: string, p: string, rest: string)
    requires NoOccurrence(line, p) && ' ' !in p
    ensures var s := line + " " + p + rest;
            && IndexOf(s, p) == |line| + 1
            && s[..|line| + 1] + p == line + " " + p
            && s[|line| + 1 + |p|..] == rest
  {
    var s := line + " " + p + rest;
    assert s == line + [' '] + p + rest;
    IndexOfAfterSeparator(line, ' ', p, rest);
    assert s[..|line| + 1] == line + " ";
  }

  // ---------------------------------------------------------------- trim

  /** `r` is `s[a..b]` and every character outside that slice is trimmable. */
  predicate TrimmedSlice(s: string, a: int, b: int, r: string) {
    && 0 <= a <= b <= |s| && r == s[a..b]
    && (forall i :: 0 <= i < a ==> IsTrimmable(s[i]))
    && (forall i :: b <= i < |s| ==> IsTrimmable(s[i]))
  }

  function TrimStart(s: string): (r: string)
    ensures |r| <= |s| && r == s[|s| - |r|..]
    ensures forall i :: 0 <= i < |s| - |r| ==> IsTrimmable(s[i])
    ensures r != [] ==> !IsTrimmable(r[0])
  {
    if s != [] && IsTrimmable(s[0]) then
      var r := TrimStart(s[1..]);
      assert forall i :: 1 <= i < |s| - |r| ==> s[i] == s[1..][i - 1];
      r
    else s
  }

  function TrimEnd(s: string): (r: string)
    ensures |r| <= |s| && r == s[..|r|]
    ensures forall i :: |r| <= i < |s| ==> IsTrimmable(s[i])
    ensures r != [] ==> !IsTrimmable(r[|r| - 1])
  {
    if s != [] && IsTrimmable(s[|s| - 1]) then TrimEnd(s[..|s| - 1]) else s
  }

  /**
   * `s.trim()`: the slice of `s` left after removing every leading and every trailing
   * character up to U+0020; it is empty or begins and ends with a character above U+0020.
   */
  function Trim(s: string): (r: string)
    ensures exists a, b :: TrimmedSlice(s, a, b, r)
    ensures r != [] ==> !IsTrimmable(r[0]) && !IsTrimmable(r[|r| - 1])
  {
    var t := TrimStart(s);
    var r := TrimEnd(t);
    TrimSlice(s, t, r);
    r
  }

  /** The two trimming passes together leave a slice of `s` with trimmable text cut off both ends. */
  lemma TrimSlice(s: string, t: string, r: string)
    requires |t| <= |s| && t == s[|s| - |t|..]
    requires forall i :: 0 <= i < |s| - |t| ==> IsTrimmable(s[i])
    requires |r| <= |t| && r == t[..|r|]
    requires forall i :: |r| <= i < |t| ==> IsTrimmable(t[i])
    ensures TrimmedSlice(s, |s| - |t|, |s| - |t| + |r|, r)
  {
    var a := |s| - |t|;
    SliceOfSuffix(s, a, |r|);
    forall i | a + |r| <= i < |s|
      ensures IsTrimmable(s[i])
    {
      assert s[i] == t[i - a];
    }
  }

  lemma SliceOfSuffix(s: string, a: nat, n: nat)
    requires a + n <= |s|
    ensures s[a..][..n] == s[a..a + n]
  {
  }

  /** Trimming a string whose ends are above U+0020 changes nothing. */
  lemma TrimUnchanged(s: string)
    requires s != [] && !IsTrimmable(s[0]) && !IsTrimmable(s[|s| - 1])
    ensures Trim(s) == s
  {
    var a, b :| TrimmedSlice(s, a, b, Trim(s));
  }

  // ---------------------------------------------------------------- split("\\s+")

  function NextWhitespace(s: string, from: nat): (r: nat)
    requires from <= |s|
    ensures from <= r <= |s| && (r < |s| ==> IsWhitespace(s[r]))
    ensures forall k :: from <= k < r ==> !IsWhitespace(s[k])
    decreases |s| - from
  {
    if from == |s| || IsWhitespace(s[from]) then from else NextWhitespace(s, from + 1)
  }

  function SkipWhitespace(s: string, from: nat): (r: nat)
    requires from <= |s|
    ensures from <= r <= |s| && (r < |s| ==> !IsWhitespace(s[r]))
    ensures forall k :: from <= k < r ==> IsWhitespace(s[k])
    decreases |s| - from
  {
    if from == |s| || !IsWhitespace(s[from]) then from else SkipWhitespace(s, from + 1)
  }

  /** The substrings of `s` between its maximal runs of whitespace, empty ones included. */
  function Pieces(s: string): (r: seq<string>)
    ensures |r| >= 1
    ensures forall k :: 0 <= k < |r| ==> NoWhitespace(r[k])
    decreases |s|
  {
    var i := NextWhitespace(s, 0);
    if i == |s| then [s]
    else [s[..i]] + Pieces(s[SkipWhitespace(s, i)..])
  }

  function DropTrailingEmpty(xs: seq<string>): (r: seq<string>)
    ensures |r| <= |xs| && r == xs[..|r|]
    ensures r != [] ==> r[|r| - 1] != ""
  {
    if xs != [] && xs[|xs| - 1] == "" then DropTrailingEmpty(xs[..|xs| - 1]) else xs
  }

  /**
   * `s.split("\\s+")`: a string without whitespace is its own only field; otherwise the
   * pieces between whitespace runs, with trailing empty pieces removed (a leading run of
   * whitespace yields a leading empty field). No field contains whitespace.
   */
  function Split(s: string): (r: seq<string>)
    ensures NoWhitespace(s) ==> r == [s]
    ensures forall k :: 0 <= k < |r| ==> NoWhitespace(r[k])
  {
    if NextWhitespace(s, 0) == |s| then [s] else DropTrailingEmpty(Pieces(s))
  }

  // ---------------------------------------------------------------- String.join

  /** `String.join(sep, xs)` and `Collectors.joining(sep)`. */
  function Join(sep: string, xs: seq<string>): string {
    if xs == [] then "" else if |xs| == 1 then xs[0] else xs[0] + sep + Join(sep, xs[1..])
  }

  /** Appending an element to a non-empty list appends the separator and the element. */
  lemma {:induction false} JoinAppend(sep: string, xs: seq<string>, x: string)
    requires xs != []
    ensures Join(sep, xs + [x]) == Join(sep, xs) + sep + x
  {
    if |xs| == 1 {
      assert xs + [x] == [xs[0], x];
      assert [xs[0], x][1..] == [x];
    } else {
      assert (xs + [x])[1..] == xs[1..] + [x];
      JoinAppend(sep, xs[1..], x);
    }
  }

  /** The joined text starts with the first element. */
  lemma JoinStartsWithFirst(sep: string, xs: seq<string>)
    requires xs != []
    ensures StartsWith(Join(sep, xs), xs[0])
  {
  }

  /** With two or more elements, the separator follows the first element. */
  lemma JoinSeparatorAfterFirst(sep: string, xs: seq<string>)
    requires |xs| >= 2
    ensures OccursAt(Join(sep, xs), sep, |xs[0]|)
  {
    var j := Join(sep, xs);
    assert j == xs[0] + sep + Join(sep, xs[1..]);
    assert j[|xs[0]|..|xs[0]| + |sep|] == sep;
  }

  /** Every element is a slice of the joined text starting at or after index 0. */
  lemma {:induction false} JoinContains(sep: string, xs: seq<string>, k: nat)
    requires k < |xs|
    ensures exists off :: OccursAt(Join(sep, xs), xs[k], off)
  {
    var j := Join(sep, xs);
    if k == 0 {
      assert OccursAt(j, xs[0], 0);
    } else {
      JoinContains(sep, xs[1..], k - 1);
      var off :| OccursAt(Join(sep, xs[1..]), xs[1..][k - 1], off);
      var shift := |xs[0]| + |sep|;
      assert j == xs[0] + sep + Join(sep, xs[1..]);
      assert j[shift + off..shift + off + |xs[k]|] == Join(sep, xs[1..])[off..off + |xs[k]|];
      assert OccursAt(j, xs[k], shift + off);
    }
  }

  /** `Join(" ", ts)` splits back into `ts` when every token is non-empty and has no whitespace. */
  lemma {:induction false} SplitJoin(ts: seq<string>)
    requires |ts| >= 1
    requires forall k :: 0 <= k < |ts| ==> ts[k] != "" && NoWhitespace(ts[k])
    ensures Split(Join(" ", ts)) == ts
  {
    PiecesOfJoin(ts);
    var s := Join(" ", ts);
    if |ts| == 1 {
      assert s == ts[0];
    } else {
      assert s == ts[0] + " " + Join(" ", ts[1..]);
      assert s[|ts[0]|] == ' ';
      assert NextWhitespace(s, 0) != |s|;
      assert DropTrailingEmpty(ts) == ts;
    }
  }

  /** A token appended after a space to a joined line is split off as one more field. */
  lemma SplitJoinAppended(ts: seq<string>, t: string)
    requires ts != [] && t != "" && NoWhitespace(t)
    requires forall k :: 0 <= k < |ts| ==> ts[k] != "" && NoWhitespace(ts[k])
    ensures Join(" ", ts) + " " + t == Join(" ", ts + [t])
    ensures Split(Join(" ", ts) + " " + t) == ts + [t]
  {
    JoinAppend(" ", ts, t);
    var fs := ts + [t];
    forall k | 0 <= k < |fs|
      ensures fs[k] != "" && NoWhitespace(fs[k])
    {
      if k < |ts| {
        assert fs[k] == ts[k];
      }
    }
    SplitJoin(fs);
  }

  lemma {:induction false} PiecesOfJoin(ts: seq<string>)
    requires |ts| >= 1
    requires forall k :: 0 <= k < |ts| ==> ts[k] != "" && NoWhitespace(ts[k])
    ensures Pieces(Join(" ", ts)) == ts
  {
    var s := Join(" ", ts);
    if |ts| == 1 {
      assert s == ts[0];
      NextWhitespaceAt(s, |s|);
    } else {
      var rest := Join(" ", ts[1..]);
      assert s == ts[0] + " " + rest;
      var i := |ts[0]|;
      NextWhitespaceAt(s, i);
      JoinStartsWithFirst(" ", ts[1..]);
      assert rest[0] == ts[1][0];
      SkipWhitespaceAt(s, i, i + 1);
      assert s[i + 1..] == rest;
      assert s[..i] == ts[0];
      PiecesOfJoin(ts[1..]);
      assert ts == [ts[0]] + ts[1..];
    }
  }

  /** A non-empty run of whitespace, as `\\s+` matches it. */
  predicate Blank(g: string) {
    g != [] && forall k :: 0 <= k < |g| ==> IsWhitespace(g[k])
  }

  /** Whitespace only, possibly none. */
  predicate AllWhitespace(g: string) {
    forall k :: 0 <= k < |g| ==> IsWhitespace(g[k])
  }

  /** The tokens `ts` with the whitespace run `gaps[k]` between `ts[k]` and `ts[k + 1]`. */
  function Spread(ts: seq<string>, gaps: seq<string>): string
    requires |gaps| + 1 == |ts|
  {
    if |ts| == 1 then ts[0] else ts[0] + gaps[0] + Spread(ts[1..], gaps[1..])
  }

  /**
   * `split("\\s+")` recovers the tokens of a line whatever the whitespace runs between them,
   * drops trailing whitespace, and gives one leading empty field for leading whitespace.
   */
  lemma SplitSpread(lead: string, ts: seq<string>, gaps: seq<string>, tail: string)
    requires AllWhitespace(lead) && AllWhitespace(tail)
    requires |ts| >= 1 && |gaps| + 1 == |ts|
    requires forall k :: 0 <= k < |ts| ==> ts[k] != "" && NoWhitespace(ts[k])
    requires forall k :: 0 <= k < |gaps| ==> Blank(gaps[k])
    ensures Split(lead + Spread(ts, gaps) + tail) == (if lead == [] then [] else [""]) + ts
  {
    var body := Spread(ts, gaps) + tail;
    var line := lead + Spread(ts, gaps) + tail;
    assert line == lead + body;
    PiecesOfSpread(ts, gaps, tail);
    SpreadStartsWithFirst(ts, gaps);
    var front := LeadPieces(lead, body, ts[0]);
    SplitOfPieces(line);
    DropTrailingEmptyOf(front, ts, tail == []);
  }

  /** Leading whitespace adds one empty piece in front. */
  lemma LeadPieces(lead: string, body: string, first: string) returns (front: seq<string>)
    requires AllWhitespace(lead) && first != [] && StartsWith(body, first)
    requires !IsWhitespace(first[0])
    ensures front == if lead == [] then [] else [""]
    ensures Pieces(lead + body) == front + Pieces(body)
  {
    if lead == [] {
      front := [];
      assert lead + body == body;
    } else {
      front := [""];
      assert body[0] == first[0];
      PiecesOfRun("", lead, body);
      assert "" + lead + body == lead + body;
    }
  }

  /** `split("\\s+")` of nothing but whitespace is the empty array. */
  lemma SplitBlank(g: string)
    requires Blank(g)
    ensures Split(g) == []
  {
    PiecesOfEndRun("", g);
    assert "" + g == g;
    assert DropTrailingEmpty([""]) == DropTrailingEmpty([]);
  }

  /** Below the no-whitespace case, `Split` drops the trailing empty pieces. */
  lemma SplitOfPieces(s: string)
    requires s != []
    ensures Split(s) == DropTrailingEmpty(Pieces(s))
  {
  }

  lemma SpreadStartsWithFirst(ts: seq<string>, gaps: seq<string>)
    requires |ts| >= 1 && |gaps| + 1 == |ts|
    ensures StartsWith(Spread(ts, gaps), ts[0])
  {
  }

  lemma DropTrailingEmptyOf(front: seq<string>, ts: seq<string>, noTail: bool)
    requires ts != [] && ts[|ts| - 1] != ""
    ensures DropTrailingEmpty(front + (ts + (if noTail then [] else [""]))) == front + ts
  {
    var xs := front + ts;
    assert xs[|xs| - 1] == ts[|ts| - 1];
    if noTail {
      assert front + (ts + []) == xs;
    } else {
      assert front + (ts + [""]) == xs + [""];
      assert (xs + [""])[..|xs|] == xs;
    }
  }

  /** A whitespace run between a whitespace-free text and more text ends the first piece. */
  lemma PiecesOfRun(a: string, g: string, b: string)
    requires NoWhitespace(a) && Blank(g) && b != [] && !IsWhitespace(b[0])
    ensures Pieces(a + g + b) == [a] + Pieces(b)
  {
    var s := a + g + b;
    NextWhitespaceAt(s, |a|);
    SkipWhitespaceAt(s, |a|, |a| + |g|);
    assert s[..|a|] == a;
    assert s[|a| + |g|..] == b;
  }

  /** A whitespace run at the end leaves one empty last piece. */
  lemma PiecesOfEndRun(a: string, g: string)
    requires NoWhitespace(a) && Blank(g)
    ensures Pieces(a + g) == [a, ""]
  {
    var s := a + g;
    NextWhitespaceAt(s, |a|);
    SkipWhitespaceAt(s, |a|, |s|);
    assert s[..|a|] == a;
    assert s[|s|..] == "";
  }

  /** The last token, followed by optional whitespace. */
  lemma PiecesOfLast(ts: seq<string>, gaps: seq<string>, tail: string)
    requires AllWhitespace(tail)
    requires |ts| == 1 && gaps == [] && NoWhitespace(ts[0])
    ensures Pieces(Spread(ts, gaps) + tail) == ts + (if tail == [] then [] else [""])
  {
    if tail == [] {
      assert Spread(ts, gaps) + tail == ts[0];
      NextWhitespaceAt(ts[0], |ts[0]|);
    } else {
      assert Spread(ts, gaps) + tail == ts[0] + tail;
      PiecesOfEndRun(ts[0], tail);
    }
  }

  /** A line of two or more tokens is the first token, the first run, and the rest. */
  lemma SpreadFirstRun(ts: seq<string>, gaps: seq<string>, tail: string)
    requires |ts| >= 2 && |gaps| + 1 == |ts| && ts[1] != ""
    ensures Spread(ts, gaps) + tail == ts[0] + gaps[0] + (Spread(ts[1..], gaps[1..]) + tail)
    ensures (Spread(ts[1..], gaps[1..]) + tail)[0] == ts[1][0]
  {
    SpreadStartsWithFirst(ts[1..], gaps[1..]);
  }

  lemma {:induction false} PiecesOfSpread(ts: seq<string>, gaps: seq<string>, tail: string)
    requires AllWhitespace(tail)
    requires |ts| >= 1 && |gaps| + 1 == |ts|
    requires forall k :: 0 <= k < |ts| ==> ts[k] != "" && NoWhitespace(ts[k])
    requires forall k :: 0 <= k < |gaps| ==> Blank(gaps[k])
    ensures Pieces(Spread(ts, gaps) + tail) == ts + (if tail == [] then [] else [""])
  {
    if |ts| == 1 {
      PiecesOfLast(ts, gaps, tail);
    } else {
      var rest := Spread(ts[1..], gaps[1..]) + tail;
      SpreadFirstRun(ts, gaps, tail);
      PiecesOfRun(ts[0], gaps[0], rest);
      PiecesOfSpread(ts[1..], gaps[1..], tail);
      assert ts == [ts[0]] + ts[1..];
    }
  }

  lemma NextWhitespaceAt(s: string, i: nat)
    requires i <= |s| && (i < |s| ==> IsWhitespace(s[i]))
    requires forall k :: 0 <= k < i ==> !IsWhitespace(s[k])
    ensures NextWhitespace(s, 0) == i
  {
  }

  lemma SkipWhitespaceAt(s: string, from: nat, i: nat)
    requires from <= i <= |s| && (i < |s| ==> !IsWhitespace(s[i]))
    requires forall k :: from <= k < i ==> IsWhitespace(s[k])
    ensures SkipWhitespace(s, from) == i
  {
  }

  // ---------------------------------------------------------------- integers

  predicate IsDigit(c: char) {
    '0' <= c <= '9'
  }

  predicate AllDigits(s: string) {
    forall i :: 0 <= i < |s| ==> IsDigit(s[i])
  }

  function DigitChar(d: nat): (c: char)
    requires d < 10
    ensures IsDigit(c) && c as int - 48 == d
  {
    (48 + d) as char
  }

  /** The value of a string of decimal digits. */
  function DigitsValue(s: string): nat
    requires AllDigits(s)
  {
    if s == [] then 0 else 10 * DigitsValue(s[..|s| - 1]) + (s[|s| - 1] as int - 48)
  }

  /** The decimal digits of `n`, without leading zeros. */
  function NatToString(n: nat): (r: string)
    ensures r != [] && AllDigits(r)
    ensures DigitsValue(r) == n
    ensures |r| > 1 ==> r[0] != '0'
  {
    if n < 10 then [DigitChar(n)]
    else
      var front := NatToString(n / 10);
      var r := front + [DigitChar(n % 10)];
      assert r[..|r| - 1] == front;
      assert |front| == 1 ==> DigitsValue(front) == front[0] as int - 48 by {
        if |front| == 1 {
          assert front[..0] == [];
        }
      }
      r
  }

  /** `String.valueOf(int)`: a minus sign for negative numbers, then the digits. */
  function IntToString(i: int): (r: string)
    ensures r != []
    ensures r[0] == '-' <==> i < 0
    ensures forall k :: 0 <= k < |r| ==> IsDigit(r[k]) || r[k] == '-'
  {
    if i < 0 then "-" + NatToString(-i) else NatToString(i)
  }

  /** After the sign, `String.valueOf(int)` writes the digits of the magnitude, without leading zeros. */
  lemma IntToStringDigits(i: int)
    ensures var r := IntToString(i);
            var digits := if i < 0 then r[1..] else r;
            && digits != [] && AllDigits(digits)
            && DigitsValue(digits) == (if i < 0 then -i else i)
            && (|digits| > 1 ==> digits[0] != '0')
  {
    if i < 0 {
      assert IntToString(i)[1..] == NatToString(-i);
    }
  }

  /**
   * `Integer.parseInt(s)`: an optional `-` or `+` followed by at least one decimal digit,
   * with a value that fits in 32 bits; anything else throws NumberFormatException (`None`).
   */
  function ParseInt(s: string): (r: Option<int>)
    ensures r.Some? ==> MinInt <= r.value <= MaxInt
    ensures r.Some? ==> s != [] && var d := if s[0] == '-' || s[0] == '+' then s[1..] else s;
                        d != [] && AllDigits(d)
    ensures r.Some? ==> (r.value < 0 ==> s[0] == '-')
  {
    if s == [] then None
    else
      var digits := if s[0] == '-' || s[0] == '+' then s[1..] else s;
      if digits == [] || !AllDigits(digits) then None
      else
        var v: int := if s[0] == '-' then -(DigitsValue(digits) as int) else DigitsValue(digits);
        if MinInt <= v <= MaxInt then Some(v) else None
  }

  /** `Integer.parseInt(String.valueOf(i)) == i` for every 32-bit `i`. */
  lemma ParseIntOfIntToString(i: int)
    requires MinInt <= i <= MaxInt
    ensures ParseInt(IntToString(i)) == Some(i)
  {
    var s := IntToString(i);
    IntToStringDigits(i);
    if i >= 0 {
      assert IsDigit(s[0]);
    }
  }

  /**
   * The value `Integer.parseInt` gives a sign and a digit string, leading zeros and a `+`
   * included, and the out-of-range texts it rejects.
   */
  lemma ParseIntOfDigits(d: string)
    requires d != [] && AllDigits(d)
    ensures DigitsValue(d) <= MaxInt ==>
              ParseInt(d) == Some(DigitsValue(d)) && ParseInt("+" + d) == Some(DigitsValue(d))
    ensures DigitsValue(d) > MaxInt ==> ParseInt(d) == None && ParseInt("+" + d) == None
    ensures -(DigitsValue(d) as int) >= MinInt ==> ParseInt("-" + d) == Some(-(DigitsValue(d) as int))
    ensures -(DigitsValue(d) as int) < MinInt ==> ParseInt("-" + d) == None
  {
    assert ("+" + d)[1..] == d && ("-" + d)[1..] == d;
    assert IsDigit(d[0]);
  }

  /** A leading zero does not change a digit string's value. */
  lemma {:induction false} LeadingZero(d: string)
    requires AllDigits(d)
    ensures AllDigits("0" + d) && DigitsValue("0" + d) == DigitsValue(d)
  {
    var z := "0" + d;
    assert IsDigit(z[0]);
    if d == [] {
      assert z[..0] == [];
    } else {
      assert z[..|z| - 1] == "0" + d[..|d| - 1];
      LeadingZero(d[..|d| - 1]);
    }
  }

  /** `Integer.parseInt("+3")` and `Integer.parseInt("03")` are both 3. */
  lemma ParseIntExamples()
    ensures ParseInt("+3") == Some(3) && ParseInt("03") == Some(3)
  {
    assert DigitsValue("3") == 3 by {
      assert "3"[..0] == "";
    }
    ParseIntOfDigits("3");
    assert "+3" == "+" + "3";
    LeadingZero("3");
    assert "03" == "0" + "3";
    ParseIntOfDigits("03");
  }

}
