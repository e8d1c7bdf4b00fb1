/**
 * The EnsemblTranscript record: the fields parsed from the header line, the cDNA, what the
 * ORF finder reported, and a mutable map from PROSITE motif ids to the positions where the
 * motif matched, with its two text renderings.
 *
 * A Java HashMap iterates in an order it does not specify. The record keeps `motifOrder`,
 * an enumeration of the keys of `motifMap` that stands for that order; `AddMotif` promises
 * only that it stays an enumeration, and the renderings follow it.
 */
module Transcript {
  import opened Wrappers
  import opened JavaStrings
  import opened EnsemblHeader

  /** What `OrfFinder` answers for a sequence: whether it has an ORF, and the longest one's protein. */
  datatype OrfReport = OrfReport(hasOrf: bool, longestAaSequence: string)

  // ---------------------------------------------------------------- key enumerations

  /** `xs` lists every element of `s` exactly once. */
  predicate IsEnumeration(xs: seq<string>, s: set<string>) {
    && (forall i, j :: 0 <= i < j < |xs| ==> xs[i] != xs[j])
    && (forall i :: 0 <= i < |xs| ==> xs[i] in s)
    && (forall k :: k in s ==> k in xs)
  }

  /** An enumeration is as long as the set has elements. */
  lemma {:induction false} EnumerationSize(xs: seq<string>, s: set<string>)
    requires IsEnumeration(xs, s)
    ensures |xs| == |s|
  {
    if xs != [] {
      var last := xs[|xs| - 1];
      var init := xs[..|xs| - 1];
      forall k | k in s - {last}
        ensures k in init
      {
        var i :| 0 <= i < |xs| && xs[i] == k;
        assert i < |xs| - 1;
        assert init[i] == k;
      }
      EnumerationSize(init, s - {last});
    }
  }

  /** Adding a key: the old enumeration still enumerates the keys when the key was there. */
  lemma EnumerationAdd(xs: seq<string>, s: set<string>, k: string)
    requires IsEnumeration(xs, s)
    ensures k in s ==> IsEnumeration(xs, s + {k})
    ensures k !in s ==> IsEnumeration(xs + [k], s + {k})
  {
    if k !in s {
      var ys := xs + [k];
      forall x | x in s + {k}
        ensures x in ys
      {
        if x != k {
          var i :| 0 <= i < |xs| && xs[i] == x;
          assert ys[i] == x;
        } else {
          assert ys[|xs|] == k;
        }
      }
    }
  }

  /** The prefix one longer is the prefix and the next key. */
  lemma PrefixGrows(xs: seq<string>, i: nat)
    requires i < |xs|
    ensures xs[..i + 1] == xs[..i] + [xs[i]]
  {
  }

  // ---------------------------------------------------------------- renderings

  /**
   * `positions.stream().map(String::valueOf).collect(Collectors.joining(";"))`: empty exactly
   * for no positions, and a single position is its decimal text alone.
   */
  function PositionsText(ps: seq<int>): (r: string)
    ensures r == "" <==> ps == []
    ensures |ps| == 1 ==> r == IntToString(ps[0])
  {
    var strs := seq(|ps|, i requires 0 <= i < |ps| => IntToString(ps[i]));
    assert ps != [] ==> strs[0] != "" && StartsWith(Join(";", strs), strs[0]) by {
      if ps != [] {
        JoinStartsWithFirst(";", strs);
      }
    }
    Join(";", strs)
  }

  /** One positions list rendered: the numbers in list order with `;` between them. */
  lemma PositionsTextTwo(p: int, q: int)
    ensures PositionsText([p, q]) == IntToString(p) + ";" + IntToString(q)
  {
    var strs := seq(2, i requires 0 <= i < 2 => IntToString([p, q][i]));
    assert PositionsText([p, q]) == Join(";", strs);
    assert strs == [IntToString(p), IntToString(q)];
    assert strs[1..] == [IntToString(q)];
  }

  const HtmlIndent: string := "&nbsp;&nbsp;"
  const HtmlBreak: string := "<br/>&nbsp;&nbsp;"

  /** One entry of the HTML motif string: `PS00001: pos:12;40`. */
  function HtmlEntry(key: string, ps: seq<int>): string {
    key + ": " + "pos:" + PositionsText(ps)
  }

  /** The HTML entries of the motifs listed in `order`, in that order. */
  function HtmlEntries(m: map<string, seq<int>>, order: seq<string>): seq<string>
    requires forall i :: 0 <= i < |order| ==> order[i] in m
  {
    seq(|order|, i requires 0 <= i < |order| => HtmlEntry(order[i], m[order[i]]))
  }

  /** The one-more-entry step of the HTML entries. */
  lemma HtmlEntriesAppend(m: map<string, seq<int>>, order: seq<string>, key: string)
    requires forall i :: 0 <= i < |order| ==> order[i] in m
    requires key in m
    ensures forall i :: 0 <= i < |order + [key]| ==> (order + [key])[i] in m
    ensures HtmlEntries(m, order + [key]) == HtmlEntries(m, order) + [HtmlEntry(key, m[key])]
  {
    var longer := order + [key];
    assert forall i :: 0 <= i < |longer| ==> longer[i] in m;
  }

  /**
   * Entries written one after another: nothing when there are none, otherwise `first` before
   * the first entry and `sep` before each later one.
   */
  function Framed(first: string, sep: string, xs: seq<string>): string {
    if xs == [] then "" else first + Join(sep, xs)
  }

  lemma FramedAppend(first: string, sep: string, xs: seq<string>, x: string)
    ensures Framed(first, sep, xs + [x]) == Framed(first, sep, xs) + (if xs == [] then first else sep) + x
  {
    if xs == [] {
      assert xs + [x] == [x];
      assert Join(sep, [x]) == x;
    } else {
      JoinAppend(sep, xs, x);
      assert Framed(first, sep, xs + [x]) == first + Join(sep, xs + [x]);
    }
  }

  lemma FramedContains(first: string, sep: string, xs: seq<string>, k: nat)
    requires k < |xs|
    ensures exists off :: OccursAt(Framed(first, sep, xs), xs[k], off)
  {
    JoinContains(sep, xs, k);
    var j := Join(sep, xs);
    var off :| OccursAt(j, xs[k], off);
    var s := Framed(first, sep, xs);
    var n := |first|;
    assert s == first + j;
    assert s[n + off..n + off + |xs[k]|] == j[off..off + |xs[k]|];
    assert OccursAt(s, xs[k], n + off);
  }

  /**
   * The text `getHtmlMotifString` builds: nothing for no motifs, otherwise two non-breaking
   * spaces before the first entry and a line break and two non-breaking spaces before each
   * later one.
   */
  function MotifHtml(m: map<string, seq<int>>, order: seq<string>): string
    requires forall i :: 0 <= i < |order| ==> order[i] in m
  {
    Framed(HtmlIndent, HtmlBreak, HtmlEntries(m, order))
  }

  /** One more entry adds its separator and its text at the end. */
  lemma MotifHtmlAppend(m: map<string, seq<int>>, order: seq<string>, key: string)
    requires forall i :: 0 <= i < |order| ==> order[i] in m
    requires key in m
    ensures forall i :: 0 <= i < |order + [key]| ==> (order + [key])[i] in m
    ensures MotifHtml(m, order + [key]) ==
              MotifHtml(m, order) + (if order == [] then HtmlIndent else HtmlBreak)
              + HtmlEntry(key, m[key])
  {
    HtmlEntriesAppend(m, order, key);
    FramedAppend(HtmlIndent, HtmlBreak, HtmlEntries(m, order), HtmlEntry(key, m[key]));
  }

  /** The loop step of `getHtmlMotifString`: separator, key, `: `, `pos:` and positions. */
  lemma MotifHtmlStep(m: map<string, seq<int>>, order: seq<string>, key: string,
                      before: string, sep: string)
    requires forall i :: 0 <= i < |order| ==> order[i] in m
    requires key in m
    requires before == MotifHtml(m, order)
    requires sep == if order == [] then HtmlIndent else HtmlBreak
    ensures forall i :: 0 <= i < |order + [key]| ==> (order + [key])[i] in m
    ensures before + sep + key + ": " + "pos:" + PositionsText(m[key]) == MotifHtml(m, order + [key])
  {
    assert before + sep + key + ": " + "pos:" + PositionsText(m[key])
        == before + sep + HtmlEntry(key, m[key]);
    MotifHtmlAppend(m, order, key);
  }

  /** The HTML string is empty exactly when there are no motifs, and otherwise starts indented. */
  lemma MotifHtmlEmpty(m: map<string, seq<int>>, order: seq<string>)
    requires forall i :: 0 <= i < |order| ==> order[i] in m
    ensures MotifHtml(m, order) == "" <==> order == []
    ensures order != [] ==> StartsWith(MotifHtml(m, order), HtmlIndent)
  {
    if order != [] {
      var s := MotifHtml(m, order);
      assert s[..|HtmlIndent|] == HtmlIndent;
      assert |HtmlIndent| > 0;
    }
  }

  /** Every motif appears in the HTML string with its positions. */
  lemma MotifHtmlContains(m: map<string, seq<int>>, order: seq<string>, k: nat)
    requires forall i :: 0 <= i < |order| ==> order[i] in m
    requires k < |order|
    ensures exists off :: OccursAt(MotifHtml(m, order), HtmlEntry(order[k], m[order[k]]), off)
  {
    var es := HtmlEntries(m, order);
    FramedContains(HtmlIndent, HtmlBreak, es, k);
    var off :| OccursAt(Framed(HtmlIndent, HtmlBreak, es), es[k], off);
    assert OccursAt(MotifHtml(m, order), HtmlEntry(order[k], m[order[k]]), off);
  }

  /** Two motifs: the first indented, the second after a line break. */
  lemma MotifHtmlTwo(m: map<string, seq<int>>, a: string, b: string)
    requires a in m && b in m
    ensures MotifHtml(m, [a, b]) == HtmlIndent + HtmlEntry(a, m[a]) + HtmlBreak + HtmlEntry(b, m[b])
  {
    MotifHtmlAppend(m, [], a);
    assert [] + [a] == [a];
    assert MotifHtml(m, []) == "";
    assert MotifHtml(m, [a]) == HtmlIndent + HtmlEntry(a, m[a]);
    MotifHtmlAppend(m, [a], b);
    assert [a] + [b] == [a, b];
  }

  /** The motif of the documentation example: one PROSITE id found at position 12. */
  lemma MotifHtmlExample()
    ensures MotifHtml(map["PS00001" := [12]], ["PS00001"]) == "&nbsp;&nbsp;PS00001: pos:12"
  {
    var m := map["PS00001" := [12]];
    assert IntToString(12) == "12";
    var strs := seq(1, i requires 0 <= i < 1 => IntToString([12][i]));
    assert strs == ["12"];
    assert PositionsText([12]) == "12";
    assert HtmlEntry("PS00001", [12]) == "PS00001" + ": " + "pos:" + "12";
    ExampleEntryText();
    var es := HtmlEntries(m, ["PS00001"]);
    assert es[0] == "PS00001: pos:12";
    assert es == ["PS00001: pos:12"];
    ExampleHtmlText();
  }

  lemma ExampleEntryText()
    ensures "PS00001" + ": " + "pos:" + "12" == "PS00001: pos:12"
  {
  }

  lemma ExampleHtmlText()
    ensures HtmlIndent + "PS00001: pos:12" == "&nbsp;&nbsp;PS00001: pos:12"
  {
  }

  /** One entry of `toString`: a new line, a tab, the key and its positions. */
  function TextEntry(key: string, ps: seq<int>): string {
    "\n\t" + key + "pos:" + PositionsText(ps)
  }

  /** The entries of `toString` for the motifs listed in `order`, one after another. */
  function TextEntries(m: map<string, seq<int>>, order: seq<string>): string
    requires forall i :: 0 <= i < |order| ==> order[i] in m
  {
    if order == [] then ""
    else TextEntries(m, order[..|order| - 1]) + TextEntry(order[|order| - 1], m[order[|order| - 1]])
  }

  /** Every motif's `toString` entry appears in the entries text. */
  lemma {:induction false} TextEntriesContain(m: map<string, seq<int>>, order: seq<string>, k: nat)
    requires forall i :: 0 <= i < |order| ==> order[i] in m
    requires k < |order|
    ensures exists off :: OccursAt(TextEntries(m, order), TextEntry(order[k], m[order[k]]), off)
  {
    var init := order[..|order| - 1];
    var last := TextEntry(order[|order| - 1], m[order[|order| - 1]]);
    assert TextEntries(m, order) == TextEntries(m, init) + last;
    if k == |order| - 1 {
      OccursAtEnd(TextEntries(m, init), last);
    } else {
      TextEntriesContain(m, init, k);
      assert init[k] == order[k];
      var e := TextEntry(order[k], m[order[k]]);
      var off :| OccursAt(TextEntries(m, init), e, off);
      OccursBefore(TextEntries(m, init), last, e, off);
    }
  }

  /** The `toString` text is a new line per motif after `symbol: id`. */
  function DebugText(symbol: string, id: string, m: map<string, seq<int>>, order: seq<string>): string
    requires forall i :: 0 <= i < |order| ==> order[i] in m
  {
    symbol + ": " + id + TextEntries(m, order)
  }

  /** One more motif adds its line at the end. */
  lemma DebugTextAppend(symbol: string, id: string, m: map<string, seq<int>>, order: seq<string>,
                        key: string)
    requires forall i :: 0 <= i < |order| ==> order[i] in m
    requires key in m
    ensures forall i :: 0 <= i < |order + [key]| ==> (order + [key])[i] in m
    ensures DebugText(symbol, id, m, order + [key]) ==
              DebugText(symbol, id, m, order) + "\n\t" + key + "pos:" + PositionsText(m[key])
  {
    var longer := order + [key];
    assert longer[..|longer| - 1] == order;
    assert forall i :: 0 <= i < |longer| ==> longer[i] in m;
    var e := TextEntry(key, m[key]);
    var t := TextEntries(m, order);
    assert TextEntries(m, longer) == t + e;
    var p := symbol + ": " + id;
    assert DebugText(symbol, id, m, longer) == p + (t + e);
    assert p + (t + e) == (p + t) + e;
    assert (p + t) + "\n\t" + key + "pos:" + PositionsText(m[key]) == (p + t) + e;
  }

  /** Without motifs `toString` is the symbol and the id; with motifs it starts with them. */
  lemma DebugTextShape(symbol: string, id: string, m: map<string, seq<int>>, order: seq<string>)
    requires forall i :: 0 <= i < |order| ==> order[i] in m
    ensures order == [] ==> DebugText(symbol, id, m, order) == symbol + ": " + id
    ensures StartsWith(DebugText(symbol, id, m, order), symbol + ": " + id)
    ensures |DebugText(symbol, id, m, order)| >= |symbol + ": " + id| + 6 * |order|
  {
    TextEntriesLength(m, order);
    var p := symbol + ": " + id;
    assert DebugText(symbol, id, m, order)[..|p|] == p;
  }

  /** Each entry has at least two characters of separator and four of `pos:`. */
  lemma {:induction false} TextEntriesLength(m: map<string, seq<int>>, order: seq<string>)
    requires forall i :: 0 <= i < |order| ==> order[i] in m
    ensures |TextEntries(m, order)| >= 6 * |order|
  {
    if order != [] {
      TextEntriesLength(m, order[..|order| - 1]);
    }
  }

  // ---------------------------------------------------------------- the record

  class EnsemblTranscript {
    const header: TranscriptHeader
    const cDNA: string
    const longestAaSequence: string
    const hasOrf: bool
    var motifMap: map<string, seq<int>>
    /** The iteration order of `motifMap`. */
    var motifOrder: seq<string>

    ghost predicate Valid()
      reads this
    {
      && IsEnumeration(motifOrder, motifMap.Keys)
      && (!hasOrf ==> longestAaSequence == "")
    }

    /** The fields after a successful parse, the ORF finder's answer, and no motifs yet. */
    constructor (h: TranscriptHeader, sequence: string, orf: OrfReport)
      ensures Valid()
      ensures header == h && cDNA == sequence
      ensures hasOrf == orf.hasOrf
      ensures longestAaSequence == if orf.hasOrf then orf.longestAaSequence else ""
      ensures motifMap == map[] && motifOrder == []
    {
      header := h;
      cDNA := sequence;
      if orf.hasOrf {
        longestAaSequence := orf.longestAaSequence;
        hasOrf := true;
      } else {
        longestAaSequence := "";
        hasOrf := false;
      }
      motifMap := map[];
      motifOrder := [];
    }

    /** `addMotif`: the id now maps to the positions; every other entry is as it was. */
    method AddMotif(prositeId: string, positionList: seq<int>)
      requires Valid()
      modifies this
      ensures Valid()
      ensures motifMap == old(motifMap)[prositeId := positionList]
      ensures prositeId in old(motifMap) ==> motifOrder == old(motifOrder)
    {
      EnumerationAdd(motifOrder, motifMap.Keys, prositeId);
      if prositeId !in motifMap {
        motifOrder := motifOrder + [prositeId];
      }
      motifMap := motifMap[prositeId := positionList];
      assert motifMap.Keys == old(motifMap).Keys + {prositeId};
    }

    /** `cDNAlen()`: the length of the sequence the record was built with. */
    function CdnaLen(): (n: nat)
      ensures n == |cDNA|
    {
      |cDNA|
    }

    /** `aaLen()`: the length of the longest ORF's protein, 0 when there is no ORF. */
    function AaLen(): (n: nat)
      requires Valid()
      reads this
      ensures !hasOrf ==> n == 0
      ensures hasOrf ==> n == |longestAaSequence|
    {
      |longestAaSequence|
    }

    /** `getHtmlMotifString()`: the motifs in iteration order, rendered for the HTML report. */
    method HtmlMotifString() returns (s: string)
      requires Valid()
      ensures forall i :: 0 <= i < |motifOrder| ==> motifOrder[i] in motifMap
      ensures s == MotifHtml(motifMap, motifOrder)
    {
      s := "";
      var notFirst := false;
      var i := 0;
      assert forall j :: 0 <= j < |motifOrder| ==> motifOrder[j] in motifMap;
      while i < |motifOrder|
        invariant 0 <= i <= |motifOrder|
        invariant forall j :: 0 <= j < |motifOrder| ==> motifOrder[j] in motifMap
        invariant notFirst == (i > 0)
        invariant s == MotifHtml(motifMap, motifOrder[..i])
      {
        var key := motifOrder[i];
        ghost var before := s;
        ghost var sep := if notFirst then HtmlBreak else HtmlIndent;
        if notFirst {
          s := s + HtmlBreak;
        } else {
          s := s + HtmlIndent;
          notFirst := true;
        }
        s := s + key + ": ";
        var positions := PositionsText(motifMap[key]);
        s := s + "pos:" + positions;
        MotifHtmlStep(motifMap, motifOrder[..i], key, before, sep);
        PrefixGrows(motifOrder, i);
        i := i + 1;
      }
      assert motifOrder[..i] == motifOrder;
    }

    /** `toString()`: the gene symbol, the transcript id, then one line per motif. */
    method ToString() returns (s: string)
      requires Valid()
      ensures forall i :: 0 <= i < |motifOrder| ==> motifOrder[i] in motifMap
      ensures s == DebugText(header.geneSymbol, header.transcriptId, motifMap, motifOrder)
    {
      s := header.geneSymbol + ": " + header.transcriptId;
      var i := 0;
      while i < |motifOrder|
        invariant 0 <= i <= |motifOrder|
        invariant s == DebugText(header.geneSymbol, header.transcriptId, motifMap, motifOrder[..i])
      {
        var key := motifOrder[i];
        DebugTextAppend(header.geneSymbol, header.transcriptId, motifMap, motifOrder[..i], key);
        s := s + "\n\t" + key;
        var positions := PositionsText(motifMap[key]);
        s := s + "pos:" + positions;
        PrefixGrows(motifOrder, i);
        i := i + 1;
      }
      assert motifOrder[..i] == motifOrder;
    }
  }

  /**
   * `new EnsemblTranscript(header, sequence)`: the header is parsed first, and only a header
   * that parses gets a record; `finder` stands for running `OrfFinder` on the sequence.
   */
  method NewTranscript(header: string, sequence: string, finder: string -> OrfReport)
    returns (r: Result<EnsemblTranscript, HeaderError>)
    ensures r.Failure? <==> ParseHeader(header).Failure?
    ensures r.Failure? ==> r.error == ParseHeader(header).error
    ensures r.Success? ==>
              && fresh(r.value) && r.value.Valid()
              && r.value.header == ParseHeader(header).value
              && r.value.cDNA == sequence
              && r.value.hasOrf == finder(sequence).hasOrf
              && r.value.longestAaSequence ==
                   (if finder(sequence).hasOrf then finder(sequence).longestAaSequence else "")
              && r.value.motifMap == map[]
  {
    var parsed := ParseHeader(header);
    if parsed.Failure? {
      return Failure(parsed.error);
    }
    var t := new EnsemblTranscript(parsed.value, sequence, finder(sequence));
    return Success(t);
  }
}
