/**
 * The per-gene row set of the HTML report: the statistics of the HbaDeals result for a gene
 * and one row per transcript of the gene, with the transcript's motif string, lengths and the
 * isoform differences the gene reports for it.
 */
module Html {
  import opened JavaStrings
  import opened Transcript

  /** An IEEE 754 double, carried through unchanged. */
  datatype Double = Double(bits: bv64)

  /** The statistics HbaDeals reports for one gene. */
  datatype HbaDealsResult = HbaDealsResult(
    symbol: string,
    expressionFoldChange: Double,
    expressionP: Double,
    correctedPval: Double)

  /** One row of the report's transcript table. */
  datatype HtmlTranscript = HtmlTranscript(
    transcriptId: string,
    motifString: string,
    differenceString: string,
    hasDifference: bool,
    cdnaLen: int,
    aaLen: int)

  /**
   * `"none"` for no differences, otherwise the differences joined by `;` in iteration order.
   * The text is `none` exactly for no differences and for the single difference `none`, so the
   * flag the constructor derives from it is false exactly then.
   */
  function DifferenceString(m: seq<string>): (r: string)
    ensures r == "none" <==> m == [] || m == ["none"]
  {
    if m == [] then "none"
    else
      JoinedNone(m);
      Join(";", m)
  }

  /** Differences joined by `;` read `none` only when the one difference is `none`. */
  lemma JoinedNone(m: seq<string>)
    requires m != []
    ensures Join(";", m) == "none" <==> m == ["none"]
  {
    if |m| == 1 {
      assert m == [m[0]];
    } else {
      JoinSeparatorAfterFirst(";", m);
      var j := Join(";", m);
      var k := |m[0]|;
      assert j[k..k + 1] == ";";
      assert j[k] == ';';
      assert forall i :: 0 <= i < |"none"| ==> "none"[i] != ';';
      assert j != "none";
    }
  }

  /** Each difference appears in the difference string. */
  lemma DifferenceStringContains(m: seq<string>, k: nat)
    requires k < |m|
    ensures exists off :: OccursAt(DifferenceString(m), m[k], off)
  {
    JoinContains(";", m, k);
    var off :| OccursAt(Join(";", m), m[k], off);
    assert OccursAt(DifferenceString(m), m[k], off);
  }

  /**
   * The row for one transcript: its id, its HTML motif string, its cDNA and protein lengths,
   * and the difference string with the flag derived from it.
   */
  function Row(t: EnsemblTranscript, diff: seq<string>): (r: HtmlTranscript)
    requires t.Valid()
    reads t
    ensures r.transcriptId == t.header.transcriptId
    ensures r.hasDifference <==> diff != [] && diff != ["none"]
    ensures diff == [] ==> r.differenceString == "none"
    ensures r.cdnaLen == |t.cDNA|
    ensures !t.hasOrf ==> r.aaLen == 0
  {
    var d := DifferenceString(diff);
    HtmlTranscript(t.header.transcriptId, MotifHtml(t.motifMap, t.motifOrder), d, d != "none",
      t.CdnaLen(), t.AaLen())
  }

  /** The remaining columns of a row: the motif string, the joined differences, the protein length. */
  lemma RowContents(t: EnsemblTranscript, diff: seq<string>)
    requires t.Valid()
    ensures forall i :: 0 <= i < |t.motifOrder| ==> t.motifOrder[i] in t.motifMap
    ensures Row(t, diff).motifString == MotifHtml(t.motifMap, t.motifOrder)
    ensures diff != [] ==> Row(t, diff).differenceString == Join(";", diff)
    ensures t.hasOrf ==> Row(t, diff).aaLen == |t.longestAaSequence|
  {
  }

  /** The loop body of the `HtmlGene` constructor builds exactly `Row`. */
  lemma LoopRow(t: EnsemblTranscript, m: seq<string>, differenceString: string, motifString: string)
    requires t.Valid()
    requires differenceString == if m == [] then "none" else Join(";", m)
    requires forall i :: 0 <= i < |t.motifOrder| ==> t.motifOrder[i] in t.motifMap
    requires motifString == MotifHtml(t.motifMap, t.motifOrder)
    ensures HtmlTranscript(t.header.transcriptId, motifString, differenceString,
              !(differenceString == "none"), t.CdnaLen(), t.AaLen()) == Row(t, m)
  {
  }

  class HtmlGene {
    const symbol: string
    const fc: Double
    const pval: Double
    const pvalCorr: Double
    const nTranscripts: int
    const transcriptList: seq<HtmlTranscript>

    /**
     * `new HtmlGene(result, egene)`: the gene's transcript map is `transcriptMap`, iterated in
     * `order`; `difference` stands for `egene.getDifference`, listing the set in its
     * iteration order.
     */
    constructor (result: HbaDealsResult, transcriptMap: map<string, EnsemblTranscript>,
                 order: seq<string>, difference: string -> seq<string>)
      requires IsEnumeration(order, transcriptMap.Keys)
      requires forall id :: id in transcriptMap ==> transcriptMap[id].Valid()
      ensures symbol == result.symbol && fc == result.expressionFoldChange
      ensures pval == result.expressionP && pvalCorr == result.correctedPval
      ensures nTranscripts == |transcriptMap|
      ensures |transcriptList| == nTranscripts == |order|
      ensures forall j :: 0 <= j < |order| ==>
                transcriptList[j] ==
                  Row(transcriptMap[order[j]], difference(transcriptMap[order[j]].header.transcriptId))
    {
      symbol := result.symbol;
      fc := result.expressionFoldChange;
      pval := result.expressionP;
      pvalCorr := result.correctedPval;
      nTranscripts := |transcriptMap|;
      var rows: seq<HtmlTranscript> := [];
      var i := 0;
      while i < |order|
        invariant 0 <= i <= |order|
        invariant |rows| == i
        invariant forall j :: 0 <= j < i ==>
                    rows[j] ==
                      Row(transcriptMap[order[j]], difference(transcriptMap[order[j]].header.transcriptId))
      {
        var et := transcriptMap[order[i]];
        var m := difference(et.header.transcriptId);
        var differenceString := "none";
        if m != [] {
          differenceString := Join(";", m);
        }
        var motifString := et.HtmlMotifString();
        var row := HtmlTranscript(et.header.transcriptId, motifString, differenceString,
          !(differenceString == "none"), et.CdnaLen(), et.AaLen());
        LoopRow(et, m, differenceString, motifString);
        ghost var prev := rows;
        rows := rows + [row];
        forall j | 0 <= j < i + 1
          ensures rows[j] ==
                    Row(transcriptMap[order[j]], difference(transcriptMap[order[j]].header.transcriptId))
        {
          if j < i {
            assert rows[j] == prev[j];
          }
        }
        i := i + 1;
      }
      transcriptList := rows;
      EnumerationSize(order, transcriptMap.Keys);
    }
  }
}
