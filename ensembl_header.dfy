/**
 * The header-line parser of the EnsemblTranscript constructor. The constant `ExampleHeader`
 * below is a header line of an Ensembl cDNA FASTA record. Everything before the
 * `description:` marker is split on whitespace into seven positional fields, each checked
 * against a fixed prefix. Every exception of the constructor is a `Failure` of `ParseHeader`,
 * and the lemmas `ParseFieldsErrors` and `ParseHeaderErrors` say which one each check throws.
 */
module EnsemblHeader {
  import opened Wrappers
  import opened JavaStrings

  /** The metadata fields the constructor extracts from a header line. */
  datatype TranscriptHeader = TranscriptHeader(
    description: string,
    transcriptId: string,
    transcriptVersion: int,
    seqtype: string,
    chromosomalLocation: string,
    geneId: string,
    geneVersion: int,
    geneBiotype: string,
    transcriptBiotype: string,
    geneSymbol: string)

  /** The exceptions the constructor can throw, one constructor per Java exception class. */
  datatype HeaderError =
    | MissingField(index: nat)     // ArrayIndexOutOfBoundsException: fields[index] does not exist
    | Malformed(message: string)   // PrositometryRuntimeException with the constructor's message
    | FieldTooShort(index: nat)    // StringIndexOutOfBoundsException: substring past the field's end
    | BadVersion(text: string)     // NumberFormatException: Integer.parseInt(text) failed

  const DescriptionMarker: string := "description:"

  /** The description and the part of the header line that is split into fields. */
  datatype Cut = Cut(description: string, body: string)

  /**
   * A `description:` marker whose first occurrence is at a positive index ends the field
   * part; the description is everything after the marker, untrimmed, and the field part is
   * the text up to and including the marker, trimmed. Otherwise (no marker, or a marker at
   * index 0) the description is "n/a" and all of the line is the field part.
   */
  function CutDescription(header: string): (c: Cut)
    ensures var i := IndexOf(header, DescriptionMarker);
            i > 0 ==> header == header[..i] + DescriptionMarker + c.description &&
                      c.body == Trim(header[..i] + DescriptionMarker)
    ensures IndexOf(header, DescriptionMarker) <= 0 ==> c == Cut("n/a", header)
  {
    var i := IndexOf(header, DescriptionMarker);
    if i > 0 then
      OccurrenceSplits(header, DescriptionMarker, i);
      Cut(header[i + 12..], Trim(header[..i + 12]))
    else Cut("n/a", header)
  }

  /** The positional fields of a header line. */
  function HeaderFields(header: string): seq<string> {
    Split(CutDescription(header).body)
  }

  /** An identifier with its version; -1 stands for "no version". */
  datatype Versioned = Versioned(id: string, version: int)

  /**
   * Separate `ENST00000390372.3` into `ENST00000390372` and 3: when the first `.` is at a
   * positive index the id is the text before it and the version is `Integer.parseInt` of the
   * text after it; otherwise the whole text is the id and the version is -1.
   */
  function SplitVersion(s: string): (r: Result<Versioned, HeaderError>)
    ensures var i := IndexOf(s, ".");
            i > 0 ==> (r.Success? <==> ParseInt(s[i + 1..]).Some?)
    ensures var i := IndexOf(s, ".");
            i > 0 && r.Success? ==>
              s == r.value.id + "." + s[i + 1..] && '.' !in r.value.id &&
              ParseInt(s[i + 1..]) == Some(r.value.version)
    ensures var i := IndexOf(s, ".");
            i > 0 && ParseInt(s[i + 1..]).None? ==> r == Failure(BadVersion(s[i + 1..]))
    ensures IndexOf(s, ".") <= 0 ==> r == Success(Versioned(s, -1))
  {
    var i := IndexOf(s, ".");
    if i > 0 then
      var text := s[i + 1..];
      assert s == s[..i] + "." + text;
      NoDotBeforeFirst(s, i);
      match ParseInt(text)
      case Some(v) => Success(Versioned(s[..i], v))
      case None => Failure(BadVersion(text))
    else Success(Versioned(s, -1))
  }

  lemma NoDotBeforeFirst(s: string, i: nat)
    requires i <= |s|
    requires forall k :: 0 <= k < i ==> !OccursAt(s, ".", k)
    ensures '.' !in s[..i]
  {
    forall k | 0 <= k < i
      ensures s[..i][k] != '.'
    {
      assert !OccursAt(s, ".", k);
      assert s[k..k + 1] == [s[k]];
    }
  }

  /** `fields[index]`, or the out-of-bounds exception. */
  function Field(fields: seq<string>, index: nat): (r: Result<string, HeaderError>)
    ensures r.Success? <==> index < |fields|
    ensures r.Success? ==> r.value == fields[index]
    ensures r.Failure? ==> r.error == MissingField(index)
  {
    if index < |fields| then Success(fields[index]) else Failure(MissingField(index))
  }

  /** `field.substring(n)`, or the out-of-bounds exception when the field is shorter than `n`. */
  function DropPrefix(field: string, n: nat, index: nat): (r: Result<string, HeaderError>)
    ensures r.Success? <==> n <= |field|
    ensures r.Success? ==> field == field[..n] + r.value
    ensures r.Failure? ==> r.error == FieldTooShort(index)
  {
    if n <= |field| then Success(field[n..]) else Failure(FieldTooShort(index))
  }

  /** The version part of a field, if any, is a 32-bit decimal number. */
  predicate VersionParses(s: string) {
    var i := IndexOf(s, ".");
    i > 0 ==> ParseInt(s[i + 1..]).Some?
  }

  /** `id` and `version` are what the versioned field `s` says. */
  predicate VersionedAs(s: string, id: string, version: int) {
    var i := IndexOf(s, ".");
    if i > 0 then id == s[..i] && ParseInt(s[i + 1..]) == Some(version)
    else id == s && version == -1
  }

  /**
   * When the constructor accepts a list of fields: at least seven, each starting with its
   * marker, long enough for the fixed offset cut from it, and with parseable versions.
   */
  predicate FieldsWellFormed(fs: seq<string>) {
    && |fs| >= 7
    && StartsWith(fs[0], "ENST") && VersionParses(fs[0])
    && LocationGeneWellFormed(fs)
    && TypeFieldsWellFormed(fs)
  }

  /** The location field starts with one of the two prefixes the constructor accepts. */
  predicate LocationMarked(f: string) {
    StartsWith(f, "chromosome") || StartsWith(f, "scaffold")
  }

  /** The location field passes its marker check and is long enough for `substring(11)`. */
  predicate LocationPasses(f: string) {
    LocationMarked(f) && |f| >= 11
  }

  /** A field starts with its marker and is long enough for `substring(cut)`. */
  predicate FieldPasses(f: string, marker: string, cut: nat) {
    StartsWith(f, marker) && |f| >= cut
  }

  /** The location field (index 2) and the gene field (index 3) pass their checks. */
  predicate LocationGeneWellFormed(fs: seq<string>) {
    && |fs| >= 4
    && LocationPasses(fs[2])
    && StartsWith(fs[3], "gene:") && VersionParses(fs[3][5..])
  }

  /** The biotype fields (indices 4 and 5) and the symbol field (index 6) pass their checks. */
  predicate TypeFieldsWellFormed(fs: seq<string>) {
    && |fs| >= 7
    && FieldPasses(fs[4], "gene_biotype", 13)
    && FieldPasses(fs[5], "transcript_biotype", 19)
    && FieldPasses(fs[6], "gene_symbol", 12)
  }

  /** What the constructor takes from the location and gene fields. */
  datatype LocationGene = LocationGene(location: string, gene: Versioned)

  /**
   * The checks of fields 2 and 3 in the constructor's order. The location is the field
   * without its first 11 characters, whether it starts with `chromosome` or `scaffold`.
   */
  function ParseLocationGene(fs: seq<string>): (r: Result<LocationGene, HeaderError>)
    ensures r.Success? <==> LocationGeneWellFormed(fs)
    ensures r.Success? ==>
              && fs[2] == fs[2][..11] + r.value.location
              && VersionedAs(fs[3][5..], r.value.gene.id, r.value.gene.version)
    // the exception of each failing check, in the constructor's order
    ensures |fs| <= 2 ==> r == Failure(MissingField(2))
    ensures |fs| > 2 && !LocationMarked(fs[2]) ==>
              r == Failure(Malformed("Malformed chromosome string: " + fs[2]))
    ensures |fs| > 2 && LocationMarked(fs[2]) && |fs[2]| < 11 ==> r == Failure(FieldTooShort(2))
    ensures |fs| == 3 && LocationPasses(fs[2]) ==> r == Failure(MissingField(3))
    ensures |fs| > 3 && LocationPasses(fs[2]) && !StartsWith(fs[3], "gene:") ==>
              r == Failure(Malformed("Malformed gene string: " + fs[3]))
    ensures |fs| > 3 && LocationPasses(fs[2]) && StartsWith(fs[3], "gene:") ==>
              var g := fs[3][5..]; var i := IndexOf(g, ".");
              i > 0 && ParseInt(g[i + 1..]).None? ==> r == Failure(BadVersion(g[i + 1..]))
  {
    var chromString :- Field(fs, 2);
    if !StartsWith(chromString, "chromosome") && !StartsWith(chromString, "scaffold") then
      Failure(Malformed("Malformed chromosome string: " + chromString))
    else
      var location :- DropPrefix(chromString, 11, 2);
      var geneField :- Field(fs, 3);
      if !StartsWith(geneField, "gene:") then
        Failure(Malformed("Malformed gene string: " + geneField))
      else
        var gene :- SplitVersion(geneField[5..]);
        Success(LocationGene(location, gene))
  }

  /** What the constructor takes from the biotype and symbol fields. */
  datatype TypeFields = TypeFields(geneBiotype: string, transcriptBiotype: string, geneSymbol: string)

  /**
   * The checks of fields 4, 5 and 6 in the constructor's order; the values lose their first
   * 13, 19 and 12 characters.
   */
  function ParseTypeFields(fs: seq<string>): (r: Result<TypeFields, HeaderError>)
    ensures r.Success? <==> TypeFieldsWellFormed(fs)
    ensures r.Success? ==>
              && fs[4] == fs[4][..13] + r.value.geneBiotype
              && fs[5] == fs[5][..19] + r.value.transcriptBiotype
              && fs[6] == fs[6][..12] + r.value.geneSymbol
    // the exception of each failing check, in the constructor's order
    ensures |fs| <= 4 ==> r == Failure(MissingField(4))
    ensures |fs| > 4 && !StartsWith(fs[4], "gene_biotype") ==>
              r == Failure(Malformed("Malformed gene_biotype string: " + fs[4]))
    ensures |fs| > 4 && StartsWith(fs[4], "gene_biotype") && |fs[4]| < 13 ==>
              r == Failure(FieldTooShort(4))
    ensures |fs| == 5 && FieldPasses(fs[4], "gene_biotype", 13) ==> r == Failure(MissingField(5))
    ensures |fs| > 5 && FieldPasses(fs[4], "gene_biotype", 13) &&
            !StartsWith(fs[5], "transcript_biotype") ==>
              r == Failure(Malformed("Malformed transcript_biotype string: " + fs[5]))
    ensures |fs| > 5 && FieldPasses(fs[4], "gene_biotype", 13) &&
            StartsWith(fs[5], "transcript_biotype") && |fs[5]| < 19 ==>
              r == Failure(FieldTooShort(5))
    ensures |fs| == 6 && FieldPasses(fs[4], "gene_biotype", 13) &&
            FieldPasses(fs[5], "transcript_biotype", 19) ==>
              r == Failure(MissingField(6))
    ensures |fs| > 6 && FieldPasses(fs[4], "gene_biotype", 13) &&
            FieldPasses(fs[5], "transcript_biotype", 19) && !StartsWith(fs[6], "gene_symbol") ==>
              r == Failure(Malformed("Malformed gene_symbol string: " + fs[6]))
    ensures |fs| > 6 && FieldPasses(fs[4], "gene_biotype", 13) &&
            FieldPasses(fs[5], "transcript_biotype", 19) &&
            StartsWith(fs[6], "gene_symbol") && |fs[6]| < 12 ==>
              r == Failure(FieldTooShort(6))
  {
    var geneBiot :- Field(fs, 4);
    if !StartsWith(geneBiot, "gene_biotype") then
      Failure(Malformed("Malformed gene_biotype string: " + geneBiot))
    else
      var geneBiotype :- DropPrefix(geneBiot, 13, 4);
      var trBiot :- Field(fs, 5);
      if !StartsWith(trBiot, "transcript_biotype") then
        Failure(Malformed("Malformed transcript_biotype string: " + trBiot))
      else
        var transcriptBiotype :- DropPrefix(trBiot, 19, 5);
        var sym :- Field(fs, 6);
        if !StartsWith(sym, "gene_symbol") then
          Failure(Malformed("Malformed gene_symbol string: " + sym))
        else
          var geneSymbol :- DropPrefix(sym, 12, 6);
          Success(TypeFields(geneBiotype, transcriptBiotype, geneSymbol))
  }

  /**
   * The field checks of the constructor, in its order: the transcript id and version, the
   * sequence type, then the location and gene fields, then the biotypes and the symbol.
   */
  function ParseFields(description: string, fs: seq<string>): (r: Result<TranscriptHeader, HeaderError>)
    ensures r.Success? <==> FieldsWellFormed(fs)
    ensures r.Success? ==>
              && r.value.description == description
              && VersionedAs(fs[0], r.value.transcriptId, r.value.transcriptVersion)
              && r.value.seqtype == fs[1]
              && fs[2] == fs[2][..11] + r.value.chromosomalLocation
              && VersionedAs(fs[3][5..], r.value.geneId, r.value.geneVersion)
              && fs[4] == fs[4][..13] + r.value.geneBiotype
              && fs[5] == fs[5][..19] + r.value.transcriptBiotype
              && fs[6] == fs[6][..12] + r.value.geneSymbol
    ensures |fs| == 0 ==> r == Failure(MissingField(0))
    ensures |fs| > 0 && !StartsWith(fs[0], "ENST") ==>
              r == Failure(Malformed("Malformed Ensembl transcript id: " + fs[0]))
  {
    var transcriptField :- Field(fs, 0);
    if !StartsWith(transcriptField, "ENST") then
      Failure(Malformed("Malformed Ensembl transcript id: " + transcriptField))
    else
      var transcript :- SplitVersion(transcriptField);
      var seqtype :- Field(fs, 1);
      var lg :- ParseLocationGene(fs);
      var ty :- ParseTypeFields(fs);
      Success(TranscriptHeader(description, transcript.id, transcript.version, seqtype,
        lg.location, lg.gene.id, lg.gene.version, ty.geneBiotype, ty.transcriptBiotype, ty.geneSymbol))
  }

  /**
   * The header parsing of the EnsemblTranscript constructor: a record exactly when the fields
   * are well formed, with the description taken from after the first `description:` marker.
   */
  function ParseHeader(header: string): (r: Result<TranscriptHeader, HeaderError>)
    ensures r.Success? <==> FieldsWellFormed(HeaderFields(header))
    ensures IndexOf(header, DescriptionMarker) <= 0 && r.Success? ==> r.value.description == "n/a"
    ensures var i := IndexOf(header, DescriptionMarker);
            i > 0 && r.Success? ==> header == header[..i] + DescriptionMarker + r.value.description
    ensures var fs := HeaderFields(header);
            r.Success? ==>
              && VersionedAs(fs[0], r.value.transcriptId, r.value.transcriptVersion)
              && r.value.seqtype == fs[1]
              && fs[2] == fs[2][..11] + r.value.chromosomalLocation
              && VersionedAs(fs[3][5..], r.value.geneId, r.value.geneVersion)
              && fs[4] == fs[4][..13] + r.value.geneBiotype
              && fs[5] == fs[5][..19] + r.value.transcriptBiotype
              && fs[6] == fs[6][..12] + r.value.geneSymbol
    ensures var fs := HeaderFields(header);
            |fs| > 0 && !StartsWith(fs[0], "ENST") ==>
              r == Failure(Malformed("Malformed Ensembl transcript id: " + fs[0]))
  {
    var cut := CutDescription(header);
    ParseFields(cut.description, Split(cut.body))
  }

  /**
   * The exception of each failing check of the constructor after the transcript-id prefix
   * check, in its order: the transcript version, the sequence type field, then the checks of
   * fields 2 and 3 and of fields 4 to 6, whose exceptions `ParseLocationGene` and
   * `ParseTypeFields` state.
   */
  lemma ParseFieldsErrors(description: string, fs: seq<string>)
    ensures |fs| > 0 && StartsWith(fs[0], "ENST") ==>
              var i := IndexOf(fs[0], ".");
              i > 0 && ParseInt(fs[0][i + 1..]).None? ==>
                ParseFields(description, fs) == Failure(BadVersion(fs[0][i + 1..]))
    ensures |fs| == 1 && StartsWith(fs[0], "ENST") && VersionParses(fs[0]) ==>
              ParseFields(description, fs) == Failure(MissingField(1))
    ensures |fs| > 1 && StartsWith(fs[0], "ENST") && VersionParses(fs[0]) &&
            !LocationGeneWellFormed(fs) ==>
              ParseFields(description, fs) == Failure(ParseLocationGene(fs).error)
    ensures |fs| > 1 && StartsWith(fs[0], "ENST") && VersionParses(fs[0]) &&
            LocationGeneWellFormed(fs) && !TypeFieldsWellFormed(fs) ==>
              ParseFields(description, fs) == Failure(ParseTypeFields(fs).error)
  {
  }

  /**
   * The constructor's exception is the one the field checks raise on the positional fields of
   * the line, whatever the description is.
   */
  lemma ParseHeaderErrors(header: string, description: string)
    ensures ParseHeader(header).Failure? ==>
              ParseHeader(header) == ParseFields(description, HeaderFields(header))
  {
    var cut := CutDescription(header);
    assert ParseHeader(header) == ParseFields(cut.description, HeaderFields(header));
    FailureIgnoresDescription(cut.description, description, HeaderFields(header));
  }

  /** A failing field check does not look at the description. */
  lemma FailureIgnoresDescription(d: string, e: string, fs: seq<string>)
    ensures ParseFields(d, fs).Failure? ==> ParseFields(d, fs) == ParseFields(e, fs)
  {
  }

  /** A bare `chromosome` field passes the marker check and then fails `substring(11)`. */
  lemma ShortLocationExample()
    ensures ParseLocationGene(["ENST1", "cdna", "chromosome", "gene:G"]) == Failure(FieldTooShort(2))
  {
    assert StartsWith("chromosome", "chromosome");
  }

  /** A wrong fourth marker is reported with the field's text once the earlier fields pass. */
  lemma GeneBiotypeMarkerChecked(description: string, fs: seq<string>)
    requires |fs| >= 5 && !StartsWith(fs[4], "gene_biotype")
    requires StartsWith(fs[0], "ENST") && VersionParses(fs[0])
    requires (StartsWith(fs[2], "chromosome") || StartsWith(fs[2], "scaffold")) && |fs[2]| >= 11
    requires StartsWith(fs[3], "gene:") && VersionParses(fs[3][5..])
    ensures ParseFields(description, fs) == Failure(Malformed("Malformed gene_biotype string: " + fs[4]))
  {
    var t := SplitVersion(fs[0]);
    var g := SplitVersion(fs[3][5..]);
    assert t.Success? && g.Success?;
  }

  // ---------------------------------------------------------------- formatting

  /** Where the location field says the transcript lies. */
  datatype LocationKind = Chromosome | Scaffold

  /** `id.version`, or `id` alone for the -1 sentinel. */
  function VersionedId(id: string, version: int): string {
    if version == -1 then id else id + "." + IntToString(version)
  }

  /** The seven positional fields Ensembl writes for a record. */
  function HeaderTokens(h: TranscriptHeader, kind: LocationKind): seq<string> {
    [ VersionedId(h.transcriptId, h.transcriptVersion),
      h.seqtype,
      (if kind == Chromosome then "chromosome:" else "scaffold:") + h.chromosomalLocation,
      "gene:" + VersionedId(h.geneId, h.geneVersion),
      "gene_biotype:" + h.geneBiotype,
      "transcript_biotype:" + h.transcriptBiotype,
      "gene_symbol:" + h.geneSymbol ]
  }

  /** The header line of a record: the fields separated by single spaces, then the description. */
  function FormatHeader(h: TranscriptHeader, kind: LocationKind): string {
    Join(" ", HeaderTokens(h, kind)) + " " + DescriptionMarker + h.description
  }

  /**
   * The records a header line can carry unambiguously: ids without dots, 32-bit versions,
   * a non-empty sequence type and gene id, and fields free of whitespace and of the marker.
   */
  predicate Formattable(h: TranscriptHeader, kind: LocationKind) {
    && StartsWith(h.transcriptId, "ENST") && '.' !in h.transcriptId
    && MinInt <= h.transcriptVersion <= MaxInt
    && h.seqtype != ""
    && h.geneId != "" && '.' !in h.geneId
    && MinInt <= h.geneVersion <= MaxInt
    && (kind == Scaffold ==> |h.chromosomalLocation| >= 2)
    && var ts := HeaderTokens(h, kind);
       forall k :: 0 <= k < |ts| ==> NoWhitespace(ts[k]) && NoOccurrence(ts[k], DescriptionMarker)
  }

  /**
   * Parsing a formatted header gives the record back, except that a scaffold location loses
   * its first two characters: the parser drops 11 characters, but `scaffold:` has only 9.
   */
  lemma ParseFormatted(h: TranscriptHeader, kind: LocationKind)
    requires Formattable(h, kind)
    ensures ParseHeader(FormatHeader(h, kind)) ==
              Success(if kind == Chromosome then h
                      else h.(chromosomalLocation := h.chromosomalLocation[2..]))
  {
    FormattedCut(h, kind);
    ParseTokens(h, kind);
  }

  /** The description and the fields of a formatted line are the record's description and tokens. */
  lemma FormattedCut(h: TranscriptHeader, kind: LocationKind)
    requires Formattable(h, kind)
    ensures CutDescription(FormatHeader(h, kind)).description == h.description
    ensures HeaderFields(FormatHeader(h, kind)) == HeaderTokens(h, kind) + [DescriptionMarker]
  {
    var ts := HeaderTokens(h, kind);
    assert ts[0][..4] == "ENST";
    CutOfJoined(ts, h.description);
  }

  /**
   * A line of space-separated tokens, none holding whitespace or the marker, followed by
   * ` description:` and a description, is cut after the marker, and its field part splits
   * into the tokens and the marker.
   */
  lemma CutOfJoined(ts: seq<string>, description: string)
    requires ts != [] && ts[0] != [] && !IsTrimmable(ts[0][0])
    requires forall k :: 0 <= k < |ts| ==> ts[k] != "" && NoWhitespace(ts[k])
    requires forall k :: 0 <= k < |ts| ==> NoOccurrence(ts[k], DescriptionMarker)
    ensures CutDescription(Join(" ", ts) + " " + DescriptionMarker + description) ==
              Cut(description, Join(" ", ts + [DescriptionMarker]))
    ensures HeaderFields(Join(" ", ts) + " " + DescriptionMarker + description) == ts + [DescriptionMarker]
  {
    MarkedLineCut(ts, description);
    MarkedFieldsSplit(ts);
  }

  lemma MarkedLineCut(ts: seq<string>, description: string)
    requires ts != [] && ts[0] != [] && !IsTrimmable(ts[0][0])
    requires forall k :: 0 <= k < |ts| ==> NoOccurrence(ts[k], DescriptionMarker)
    ensures CutDescription(Join(" ", ts) + " " + DescriptionMarker + description) ==
              Cut(description, Join(" ", ts) + " " + DescriptionMarker)
  {
    var line := Join(" ", ts);
    MarkerFacts();
    JoinNoOccurrence(ts);
    IndexOfAfterSpace(line, DescriptionMarker, description);
    var body := line + " " + DescriptionMarker;
    JoinStartsWithFirst(" ", ts);
    assert body[0] == ts[0][0];
    TrimUnchanged(body);
  }

  lemma MarkedFieldsSplit(ts: seq<string>)
    requires ts != []
    requires forall k :: 0 <= k < |ts| ==> ts[k] != "" && NoWhitespace(ts[k])
    ensures Join(" ", ts) + " " + DescriptionMarker == Join(" ", ts + [DescriptionMarker])
    ensures Split(Join(" ", ts) + " " + DescriptionMarker) == ts + [DescriptionMarker]
  {
    MarkerFacts();
    SplitJoinAppended(ts, DescriptionMarker);
  }

  lemma MarkerFacts()
    ensures |DescriptionMarker| == 12 && DescriptionMarker[11] == ':'
    ensures ' ' !in DescriptionMarker && NoWhitespace(DescriptionMarker)
  {
  }

  /** The field checks accept the tokens of a formattable record and recover its fields. */
  lemma ParseTokens(h: TranscriptHeader, kind: LocationKind)
    requires Formattable(h, kind)
    ensures ParseFields(h.description, HeaderTokens(h, kind) + [DescriptionMarker]) ==
              Success(if kind == Chromosome then h
                      else h.(chromosomalLocation := h.chromosomalLocation[2..]))
  {
    var fs := HeaderTokens(h, kind) + [DescriptionMarker];
    TokensWellFormed(h, kind);
    var r := ParseFields(h.description, fs);
    assert r.value.transcriptId == h.transcriptId && r.value.transcriptVersion == h.transcriptVersion;
    assert r.value.geneId == h.geneId && r.value.geneVersion == h.geneVersion;
  }

  lemma TokensWellFormed(h: TranscriptHeader, kind: LocationKind)
    requires StartsWith(h.transcriptId, "ENST") && '.' !in h.transcriptId
    requires MinInt <= h.transcriptVersion <= MaxInt
    requires h.geneId != "" && '.' !in h.geneId
    requires MinInt <= h.geneVersion <= MaxInt
    requires kind == Scaffold ==> |h.chromosomalLocation| >= 2
    ensures var fs := HeaderTokens(h, kind) + [DescriptionMarker];
            && FieldsWellFormed(fs)
            && VersionedAs(fs[0], h.transcriptId, h.transcriptVersion)
            && fs[1] == h.seqtype
            && fs[2][11..] == (if kind == Chromosome then h.chromosomalLocation
                               else h.chromosomalLocation[2..])
            && VersionedAs(fs[3][5..], h.geneId, h.geneVersion)
            && fs[4][13..] == h.geneBiotype
            && fs[5][19..] == h.transcriptBiotype
            && fs[6][12..] == h.geneSymbol
  {
    var t0 := VersionedId(h.transcriptId, h.transcriptVersion);
    var t2 := (if kind == Chromosome then "chromosome:" else "scaffold:") + h.chromosomalLocation;
    var t3 := "gene:" + VersionedId(h.geneId, h.geneVersion);
    var t4 := "gene_biotype:" + h.geneBiotype;
    var t5 := "transcript_biotype:" + h.transcriptBiotype;
    var t6 := "gene_symbol:" + h.geneSymbol;
    assert HeaderTokens(h, kind) + [DescriptionMarker] ==
             [t0, h.seqtype, t2, t3, t4, t5, t6, DescriptionMarker];
    VersionedIdSplits(h.transcriptId, h.transcriptVersion);
    StartsWithTransitive(t0, h.transcriptId, "ENST");
    VersionedIdSplits(h.geneId, h.geneVersion);
    LocationToken(h.chromosomalLocation, kind);
    MarkedTokens(h.geneId, h.geneVersion, h.geneBiotype, h.transcriptBiotype, h.geneSymbol);
    var loc := if kind == Chromosome then h.chromosomalLocation else h.chromosomalLocation[2..];
    FieldsOfTokens(t0, h.seqtype, t2, t3, t4, t5, t6, DescriptionMarker, h.(chromosomalLocation := loc));
  }

  lemma LocationToken(location: string, kind: LocationKind)
    requires kind == Scaffold ==> |location| >= 2
    ensures var t := (if kind == Chromosome then "chromosome:" else "scaffold:") + location;
            && (StartsWith(t, "chromosome") || StartsWith(t, "scaffold")) && |t| >= 11
            && t[11..] == (if kind == Chromosome then location else location[2..])
  {
    MarkerPrefixes();
    if kind == Chromosome {
      MarkedField("chromosome:", location, "chromosome");
    } else {
      MarkedField("scaffold:", location, "scaffold");
      assert ("scaffold:" + location)[11..] == location[2..];
    }
  }

  lemma MarkedTokens(geneId: string, geneVersion: int, geneBiotype: string,
                     transcriptBiotype: string, geneSymbol: string)
    ensures StartsWith("gene:" + VersionedId(geneId, geneVersion), "gene:")
    ensures ("gene:" + VersionedId(geneId, geneVersion))[5..] == VersionedId(geneId, geneVersion)
    ensures StartsWith("gene_biotype:" + geneBiotype, "gene_biotype")
    ensures |"gene_biotype:" + geneBiotype| >= 13 && ("gene_biotype:" + geneBiotype)[13..] == geneBiotype
    ensures StartsWith("transcript_biotype:" + transcriptBiotype, "transcript_biotype")
    ensures |"transcript_biotype:" + transcriptBiotype| >= 19
    ensures ("transcript_biotype:" + transcriptBiotype)[19..] == transcriptBiotype
    ensures StartsWith("gene_symbol:" + geneSymbol, "gene_symbol")
    ensures |"gene_symbol:" + geneSymbol| >= 12 && ("gene_symbol:" + geneSymbol)[12..] == geneSymbol
  {
    MarkerPrefixes();
    MarkedField("gene:", VersionedId(geneId, geneVersion), "gene:");
    MarkedField("gene_biotype:", geneBiotype, "gene_biotype");
    MarkedField("transcript_biotype:", transcriptBiotype, "transcript_biotype");
    MarkedField("gene_symbol:", geneSymbol, "gene_symbol");
  }

  /** Tokens that pass the field checks one by one form a well-formed list carrying `h`. */
  lemma FieldsOfTokens(t0: string, t1: string, t2: string, t3: string, t4: string,
                       t5: string, t6: string, t7: string, h: TranscriptHeader)
    requires StartsWith(t0, "ENST") && VersionParses(t0)
    requires VersionedAs(t0, h.transcriptId, h.transcriptVersion) && t1 == h.seqtype
    requires (StartsWith(t2, "chromosome") || StartsWith(t2, "scaffold")) && |t2| >= 11
    requires t2[11..] == h.chromosomalLocation
    requires StartsWith(t3, "gene:") && VersionParses(t3[5..])
    requires VersionedAs(t3[5..], h.geneId, h.geneVersion)
    requires StartsWith(t4, "gene_biotype") && |t4| >= 13 && t4[13..] == h.geneBiotype
    requires StartsWith(t5, "transcript_biotype") && |t5| >= 19 && t5[19..] == h.transcriptBiotype
    requires StartsWith(t6, "gene_symbol") && |t6| >= 12 && t6[12..] == h.geneSymbol
    ensures var fs := [t0, t1, t2, t3, t4, t5, t6, t7];
            && FieldsWellFormed(fs)
            && VersionedAs(fs[0], h.transcriptId, h.transcriptVersion)
            && fs[1] == h.seqtype
            && fs[2][11..] == h.chromosomalLocation
            && VersionedAs(fs[3][5..], h.geneId, h.geneVersion)
            && fs[4][13..] == h.geneBiotype
            && fs[5][19..] == h.transcriptBiotype
            && fs[6][12..] == h.geneSymbol
  {
  }

  lemma MarkerPrefixes()
    ensures StartsWith("gene:", "gene:") && |"gene:"| == 5
    ensures StartsWith("gene_biotype:", "gene_biotype") && |"gene_biotype:"| == 13
    ensures StartsWith("transcript_biotype:", "transcript_biotype") && |"transcript_biotype:"| == 19
    ensures StartsWith("gene_symbol:", "gene_symbol") && |"gene_symbol:"| == 12
    ensures StartsWith("chromosome:", "chromosome") && |"chromosome:"| == 11
    ensures StartsWith("scaffold:", "scaffold") && |"scaffold:"| == 9
  {
  }

  /** A field made of a marked prefix and a value starts with the marker and ends with the value. */
  lemma MarkedField(prefix: string, value: string, marker: string)
    requires StartsWith(prefix, marker)
    ensures StartsWith(prefix + value, marker) && (prefix + value)[|prefix|..] == value
  {
    assert (prefix + value)[..|marker|] == prefix[..|marker|];
  }

  lemma StartsWithTransitive(s: string, t: string, p: string)
    requires StartsWith(s, t) && StartsWith(t, p)
    ensures StartsWith(s, p)
  {
    assert s[..|p|] == s[..|t|][..|p|];
  }

  lemma {:induction false} JoinNoOccurrence(ts: seq<string>)
    requires forall k :: 0 <= k < |ts| ==> NoOccurrence(ts[k], DescriptionMarker)
    ensures NoOccurrence(Join(" ", ts), DescriptionMarker)
  {
    if |ts| > 1 {
      JoinNoOccurrence(ts[1..]);
      assert Join(" ", ts) == ts[0] + [' '] + Join(" ", ts[1..]);
      NoOccurrenceAcross(ts[0], ' ', Join(" ", ts[1..]), DescriptionMarker);
    }
  }

  lemma VersionedIdSplits(id: string, version: int)
    requires id != "" && '.' !in id && MinInt <= version <= MaxInt
    ensures VersionParses(VersionedId(id, version))
    ensures VersionedAs(VersionedId(id, version), id, version)
    ensures StartsWith(VersionedId(id, version), id)
  {
    var s := VersionedId(id, version);
    if version == -1 {
      assert NoOccurrence(s, ".") by {
        forall k | 0 <= k <= |s| - 1
          ensures !OccursAt(s, ".", k)
        {
          assert s[k..k + 1][0] == s[k];
        }
      }
    } else {
      var text := IntToString(version);
      assert s == id + "." + text;
      assert OccursAt(s, ".", |id|);
      forall k | 0 <= k < |id|
        ensures !OccursAt(s, ".", k)
      {
        assert s[k..k + 1][0] == id[k];
      }
      IndexOfFirstOccurrence(s, ".", |id|);
      assert s[..|id|] == id && s[|id| + 1..] == text;
      ParseIntOfIntToString(version);
    }
  }

  // ---------------------------------------------------------------- the documented example

  /** The header line of the class comment, written token by token. */
  const ExampleHeader: string :=
    "ENST00000390372.3" + " " + "cdna" + " " + "chromosome:GRCh38:7:142482548:142483019:1" + " "
    + "gene:ENSG00000211725.3" + " " + "gene_biotype:TR_V_gene" + " " + "transcript_biotype:TR_V_gene"
    + " " + "gene_symbol:TRBV5-5" + " " + "description:"
    + "T cell receptor beta variable 5-5 [Source:HGNC Symbol;Acc:HGNC:12222]"

  const ExampleRecord: TranscriptHeader := TranscriptHeader(
    "T cell receptor beta variable 5-5 [Source:HGNC Symbol;Acc:HGNC:12222]",
    "ENST00000390372", 3, "cdna", "GRCh38:7:142482548:142483019:1",
    "ENSG00000211725", 3, "TR_V_gene", "TR_V_gene", "TRBV5-5")

  const ExampleTokens: seq<string> :=
    [ "ENST00000390372.3", "cdna", "chromosome:GRCh38:7:142482548:142483019:1",
      "gene:ENSG00000211725.3", "gene_biotype:TR_V_gene", "transcript_biotype:TR_V_gene",
      "gene_symbol:TRBV5-5" ]

  /** The header of the class comment parses into the ids, versions and symbol it shows. */
  lemma ExampleHeaderParses()
    ensures ParseHeader(ExampleHeader).Success?
    ensures var h := ParseHeader(ExampleHeader).value;
            && h.transcriptId == "ENST00000390372" && h.transcriptVersion == 3
            && h.seqtype == "cdna"
            && h.chromosomalLocation == "GRCh38:7:142482548:142483019:1"
            && h.geneId == "ENSG00000211725" && h.geneVersion == 3
            && h.geneBiotype == "TR_V_gene" && h.transcriptBiotype == "TR_V_gene"
            && h.geneSymbol == "TRBV5-5"
            && h.description == "T cell receptor beta variable 5-5 [Source:HGNC Symbol;Acc:HGNC:12222]"
  {
    ExampleFormattable();
    ExampleLine();
    ParseFormatted(ExampleRecord, Chromosome);
  }

  lemma ExampleFormattable()
    ensures Formattable(ExampleRecord, Chromosome)
  {
    ExampleTokensOfRecord();
    ExampleTokensClean();
    ExampleIds();
  }

  lemma ExampleIds()
    ensures StartsWith("ENST00000390372", "ENST") && '.' !in "ENST00000390372"
    ensures "ENSG00000211725" != "" && '.' !in "ENSG00000211725"
  {
  }

  lemma ExampleTokensOfRecord()
    ensures HeaderTokens(ExampleRecord, Chromosome) == ExampleTokens
  {
    ExampleVersionedIds();
    ExampleLocationToken();
    ExampleGeneToken();
    ExampleBiotypeTokens();
    ExampleSymbolToken();
  }

  lemma ExampleVersionedIds()
    ensures VersionedId("ENST00000390372", 3) == "ENST00000390372.3"
    ensures VersionedId("ENSG00000211725", 3) == "ENSG00000211725.3"
  {
    assert IntToString(3) == "3";
  }

  lemma ExampleLocationToken()
    ensures "chromosome:" + "GRCh38:7:142482548:142483019:1" == "chromosome:GRCh38:7:142482548:142483019:1"
  {
  }

  lemma ExampleGeneToken()
    ensures "gene:" + "ENSG00000211725.3" == "gene:ENSG00000211725.3"
  {
  }

  lemma ExampleBiotypeTokens()
    ensures "gene_biotype:" + "TR_V_gene" == "gene_biotype:TR_V_gene"
    ensures "transcript_biotype:" + "TR_V_gene" == "transcript_biotype:TR_V_gene"
  {
  }

  lemma ExampleSymbolToken()
    ensures "gene_symbol:" + "TRBV5-5" == "gene_symbol:TRBV5-5"
  {
  }

  lemma ExampleTokensClean()
    ensures forall k :: 0 <= k < |ExampleTokens| ==>
              NoWhitespace(ExampleTokens[k]) && NoOccurrence(ExampleTokens[k], DescriptionMarker)
  {
    ExampleIdTokensClean();
    ExampleGeneTokenClean();
    ExampleLocationTokenClean();
    ExampleBiotypeClean(ExampleTokens[4]);
    ExampleBiotypeClean(ExampleTokens[5]);
    ExampleSymbolTokenClean();
  }

  lemma ExampleIdTokensClean()
    ensures NoWhitespace("ENST00000390372.3") && NoOccurrence("ENST00000390372.3", DescriptionMarker)
    ensures NoWhitespace("cdna") && NoOccurrence("cdna", DescriptionMarker)
  {
    CleanToken("ENST00000390372.3");
  }

  lemma ExampleGeneTokenClean()
    ensures NoWhitespace("gene:ENSG00000211725.3")
    ensures NoOccurrence("gene:ENSG00000211725.3", DescriptionMarker)
  {
    CleanToken("gene:ENSG00000211725.3");
  }

  lemma ExampleLocationTokenClean()
    ensures NoWhitespace("chromosome:GRCh38:7:142482548:142483019:1")
    ensures NoOccurrence("chromosome:GRCh38:7:142482548:142483019:1", DescriptionMarker)
  {
    ExampleLocationTokenBlank();
    ExampleLocationTokenPlain();
    CleanToken("chromosome:GRCh38:7:142482548:142483019:1");
  }

  lemma ExampleLocationTokenBlank()
    ensures NoWhitespace("chromosome:GRCh38:7:142482548:142483019:1")
  {
  }

  lemma ExampleLocationTokenPlain()
    ensures 'd' !in "chromosome:GRCh38:7:142482548:142483019:1"
  {
  }

  /** Either biotype token of the example, `gene_biotype:TR_V_gene` or `transcript_biotype:TR_V_gene`. */
  lemma ExampleBiotypeClean(t: string)
    requires t == "gene_biotype:TR_V_gene" || t == "transcript_biotype:TR_V_gene"
    ensures NoWhitespace(t) && NoOccurrence(t, DescriptionMarker)
  {
    if t == "gene_biotype:TR_V_gene" {
      CleanToken("gene_biotype:TR_V_gene");
    } else {
      CleanToken("transcript_biotype:TR_V_gene");
    }
  }

  lemma ExampleSymbolTokenClean()
    ensures NoWhitespace("gene_symbol:TRBV5-5") && NoOccurrence("gene_symbol:TRBV5-5", DescriptionMarker)
  {
    CleanToken("gene_symbol:TRBV5-5");
  }

  lemma CleanToken(t: string)
    requires 'd' !in t && NoWhitespace(t)
    ensures NoOccurrence(t, DescriptionMarker)
  {
    NoOccurrenceWithoutHead(t, "", DescriptionMarker);
    assert t + "" == t;
  }

  lemma ExampleLine()
    ensures FormatHeader(ExampleRecord, Chromosome) == ExampleHeader
  {
    ExampleTokensOfRecord();
    JoinSeven("ENST00000390372.3", "cdna", "chromosome:GRCh38:7:142482548:142483019:1",
              "gene:ENSG00000211725.3", "gene_biotype:TR_V_gene", "transcript_biotype:TR_V_gene",
              "gene_symbol:TRBV5-5");
  }

  lemma JoinSeven(a: string, b: string, c: string, d: string, e: string, f: string, g: string)
    ensures Join(" ", [a, b, c, d, e, f, g]) ==
              a + " " + b + " " + c + " " + d + " " + e + " " + f + " " + g
  {
    JoinAppend(" ", [a], b);
    assert [a] + [b] == [a, b];
    JoinAppend(" ", [a, b], c);
    assert [a, b] + [c] == [a, b, c];
    JoinAppend(" ", [a, b, c], d);
    assert [a, b, c] + [d] == [a, b, c, d];
    JoinAppend(" ", [a, b, c, d], e);
    assert [a, b, c, d] + [e] == [a, b, c, d, e];
    JoinAppend(" ", [a, b, c, d, e], f);
    assert [a, b, c, d, e] + [f] == [a, b, c, d, e, f];
    JoinAppend(" ", [a, b, c, d, e, f], g);
    assert [a, b, c, d, e, f] + [g] == [a, b, c, d, e, f, g];
  }
}
