# Prositometry transcript records and gene rows in Dafny

Prositometry reads Ensembl cDNA FASTA records. It finds the longest open reading frame of
each transcript, scans the protein for PROSITE motifs, and writes an HTML report with one
table per gene. This project models and proves two parts of it:

- the `EnsemblTranscript` record:
  - the constructor's parser for the FASTA header line, with every exception it can throw;
  - the hook-up of the ORF finder's answer;
  - the motif map with `addMotif`;
  - the HTML motif string, `toString`, `cDNAlen` and `aaLen`;
- the `HtmlGene(HbaDealsResult, EnsemblGene)` constructor, which builds one
  `HtmlTranscript` row per transcript of a gene.

Files:

- `wrappers.dfy` (module `Wrappers`): `Option` and `Result`. A Java exception is a
  `Failure`.
- `java_strings.dfy` (module `JavaStrings`): the `java.lang.String` operations the code relies
  on, with their exact behaviour. These are `indexOf`, `trim`, `split("\\s+")`,
  `String.join`, `String.valueOf(int)` and `Integer.parseInt`.
- `ensembl_header.dfy` (module `EnsemblHeader`):
  - the header parser, as a function from the line to a `TranscriptHeader` or a
    `HeaderError`;
  - a formatter for Ensembl header lines, and the round-trip lemma between the two;
  - the worked example from the class comment.
- `ensembl_transcript.dfy` (module `Transcript`): the class `EnsemblTranscript`. It holds
  the parsed header, the cDNA, the ORF fields and a mutable motif map. Two pure definitions
  specify its string-building loops.
- `html_gene.dfy` (module `Html`): the difference string, its flag, the row of one transcript
  and the class `HtmlGene`.

A Java `HashMap` is modelled as a `map` plus a `seq` of its keys in iteration order. That
order is the field `motifOrder` of a transcript, and the parameter `order` of the `HtmlGene`
constructor. Java does not fix the order. The predicate `IsEnumeration` requires only that
the sequence lists every key exactly once, and every proof holds for any such order.

## Model

| member | source | states |
|---|---|---|
| JavaStrings.IndexOf | src/main/java/org/jax/prositometry/ensembl/EnsemblTranscript.java:40 | -1 exactly when the pattern does not occur; otherwise the pattern occurs at the result and at no earlier index |
| JavaStrings.Trim | src/main/java/org/jax/prositometry/ensembl/EnsemblTranscript.java:44 | the result is a slice of the input with only characters <= U+0020 cut from either end, and a non-empty result neither starts nor ends with one |
| JavaStrings.TrimUnchanged | src/main/java/org/jax/prositometry/ensembl/EnsemblTranscript.java:44 | text whose first and last characters are above U+0020 is returned unchanged |
| JavaStrings.Split | src/main/java/org/jax/prositometry/ensembl/EnsemblTranscript.java:47 | text without whitespace gives the one-element array of itself, and no piece contains whitespace |
| JavaStrings.SplitJoin | src/main/java/org/jax/prositometry/ensembl/EnsemblTranscript.java:47 | non-empty, whitespace-free tokens joined by single spaces split back into exactly those tokens |
| JavaStrings.SplitSpread | src/main/java/org/jax/prositometry/ensembl/EnsemblTranscript.java:47 | tokens without whitespace, separated by runs of one or more whitespace characters and with optional whitespace before and after, split into exactly those tokens, led by one empty string when the text starts with whitespace |
| JavaStrings.SplitBlank | src/main/java/org/jax/prositometry/ensembl/EnsemblTranscript.java:47 | a non-empty all-whitespace text splits into no pieces at all |
| JavaStrings.ParseInt | src/main/java/org/jax/prositometry/ensembl/EnsemblTranscript.java:56 | a parsed value lies in the 32-bit range, and the text is an optional sign followed by at least one decimal digit (so `""`, `"+"` and `"-"` fail), with a negative value only after '-' |
| JavaStrings.ParseIntOfDigits | src/main/java/org/jax/prositometry/ensembl/EnsemblTranscript.java:56 | decimal digits, bare or after `+`, parse to their value when it is at most 2147483647 and fail above it; after `-` they parse to the negated value when it is at least -2147483648 and fail below it |
| JavaStrings.LeadingZero | src/main/java/org/jax/prositometry/ensembl/EnsemblTranscript.java:56 | a leading `0` keeps the value of a digit string |
| JavaStrings.ParseIntExamples | src/main/java/org/jax/prositometry/ensembl/EnsemblTranscript.java:56 | `Integer.parseInt("+3")` and `Integer.parseInt("03")` are both 3 |
| JavaStrings.ParseIntOfIntToString | src/main/java/org/jax/prositometry/ensembl/EnsemblTranscript.java:56 | `Integer.parseInt(String.valueOf(i)) == i` for every 32-bit int |
| JavaStrings.IntToString | src/main/java/org/jax/prositometry/ensembl/EnsemblTranscript.java:179 | `String.valueOf(int)` is non-empty, starts with '-' exactly for negatives, and holds only digits and '-' |
| JavaStrings.NatToString | src/main/java/org/jax/prositometry/ensembl/EnsemblTranscript.java:179 | the decimal text of a natural number: non-empty digits whose value is the number, with no leading zero |
| JavaStrings.IntToStringDigits | src/main/java/org/jax/prositometry/ensembl/EnsemblTranscript.java:179 | the digits of `String.valueOf(int)` after any `-` have the absolute value as their value and no leading zero |
| JavaStrings.JoinAppend | src/main/java/org/jax/prositometry/ensembl/EnsemblTranscript.java:179 | joining one element more appends the separator and that element |
| JavaStrings.JoinStartsWithFirst | src/main/java/org/jax/prositometry/html/HtmlGene.java:36 | a non-empty join starts with its first element |
| JavaStrings.JoinSeparatorAfterFirst | src/main/java/org/jax/prositometry/html/HtmlGene.java:36 | with two or more elements, the separator follows the first element |
| JavaStrings.JoinContains | src/main/java/org/jax/prositometry/html/HtmlGene.java:36 | every joined element occurs in the joined text |
| EnsemblHeader.CutDescription | src/main/java/org/jax/prositometry/ensembl/EnsemblTranscript.java:39-46 | when the first `description:` is at a positive index, the line is the text before it, the marker and the description, and the field part is that prefix plus the marker, trimmed; otherwise the description is "n/a" and the field part is the whole line |
| EnsemblHeader.SplitVersion | src/main/java/org/jax/prositometry/ensembl/EnsemblTranscript.java:52-60 | when the first '.' is at a positive index: success iff the text after it parses as an int, and then the id is the dot-free text before it; otherwise the `NumberFormatException`, `BadVersion` of that text; without such a dot, the whole text with version -1 |
| EnsemblHeader.Field | src/main/java/org/jax/prositometry/ensembl/EnsemblTranscript.java:48 | `fields[k]` succeeds exactly when k is within the array, with that element; otherwise the `ArrayIndexOutOfBoundsException`, `MissingField(k)` |
| EnsemblHeader.DropPrefix | src/main/java/org/jax/prositometry/ensembl/EnsemblTranscript.java:66 | `substring(n)` succeeds exactly when the field has at least n characters, and the field is its first n characters followed by the result; otherwise the `StringIndexOutOfBoundsException`, `FieldTooShort` of the field's index |
| EnsemblHeader.ParseLocationGene | src/main/java/org/jax/prositometry/ensembl/EnsemblTranscript.java:62-80 | success iff field 2 starts with `chromosome` or `scaffold` and has at least 11 characters, and field 3 starts with `gene:` and has a parseable version; the location is field 2 after 11 characters, and the gene id and version are what the rest of field 3 says; each failing check, in source order, gives its own exception: a missing field 2, the "Malformed chromosome string" message, a field 2 too short for `substring(11)`, a missing field 3, the "Malformed gene string" message, or the gene version's `NumberFormatException` |
| EnsemblHeader.ParseTypeFields | src/main/java/org/jax/prositometry/ensembl/EnsemblTranscript.java:81-95 | success iff fields 4, 5 and 6 carry their markers and are at least 13, 19 and 12 characters long; the values are the fields after those lengths; for each of the three fields in turn, once the earlier ones pass, a missing field, a wrong marker (the "Malformed gene_biotype / transcript_biotype / gene_symbol string" message naming the field) or a field too short for its `substring` gives that exception |
| EnsemblHeader.ParseFields | src/main/java/org/jax/prositometry/ensembl/EnsemblTranscript.java:47-95 | success iff the fields are well formed, with every record field tied to its field; no fields gives the missing-field error for index 0; a first field without `ENST` gives the "Malformed Ensembl transcript id" error naming it |
| EnsemblHeader.ParseFieldsErrors | src/main/java/org/jax/prositometry/ensembl/EnsemblTranscript.java:47-95 | after the `ENST` check: a version that does not parse gives `BadVersion` of the text after the dot; then a missing field 1 gives `MissingField(1)`; then the first failing check of fields 2 and 3, and after them of fields 4 to 6, gives the exception that `ParseLocationGene` and `ParseTypeFields` state |
| EnsemblHeader.ParseHeader | src/main/java/org/jax/prositometry/ensembl/EnsemblTranscript.java:38-95 | the constructor throws exactly when the positional fields of the line are not well formed; the description is "n/a" without a marker at a positive index and otherwise is the text after the first marker; every other field is tied to its positional field; a bad transcript id gives its specific error |
| EnsemblHeader.ParseHeaderErrors | src/main/java/org/jax/prositometry/ensembl/EnsemblTranscript.java:38-95 | when the constructor throws, it throws what the field checks throw on the positional fields of the line, whatever the description |
| EnsemblHeader.FailureIgnoresDescription | src/main/java/org/jax/prositometry/ensembl/EnsemblTranscript.java:47-95 | a failing field check throws the same exception whatever description was cut from the line |
| EnsemblHeader.ShortLocationExample | src/main/java/org/jax/prositometry/ensembl/EnsemblTranscript.java:62-66 | a bare `chromosome` field passes the marker check and then throws at `substring(11)` |
| EnsemblHeader.GeneBiotypeMarkerChecked | src/main/java/org/jax/prositometry/ensembl/EnsemblTranscript.java:81-84 | once fields 0 to 3 pass, a field 4 without `gene_biotype` gives the "Malformed gene_biotype string" error naming the field |
| EnsemblHeader.ParseFormatted | src/main/java/org/jax/prositometry/ensembl/EnsemblTranscript.java:38-95 | parsing the header line Ensembl writes for a record gives the record back, except that a `scaffold:` location loses its first two characters, because the parser always drops 11 characters |
| JavaStrings.SplitJoinAppended | src/main/java/org/jax/prositometry/ensembl/EnsemblTranscript.java:44-47 | a whitespace-free token put after a space at the end of space-joined tokens splits off as one more field; this is how the kept `description:` marker becomes a last field of its own |
| EnsemblHeader.ExampleHeaderParses | src/main/java/org/jax/prositometry/ensembl/EnsemblTranscript.java:11-15 | the header in the class comment parses to id ENST00000390372 version 3, gene ENSG00000211725 version 3, biotypes TR_V_gene, symbol TRBV5-5, the location after `chromosome:`, and the description after the marker |
| Transcript.EnsemblTranscript.constructor | src/main/java/org/jax/prositometry/ensembl/EnsemblTranscript.java:96-105 | keeps the sequence; takes the protein and the flag from the ORF finder when it found an ORF, otherwise "" and false; starts with no motifs |
| Transcript.NewTranscript | src/main/java/org/jax/prositometry/ensembl/EnsemblTranscript.java:38-106 | a record exists exactly when the header parses, carrying the parsed header, the sequence and the ORF answer, with an empty motif map; otherwise the parser's own error |
| Transcript.EnsemblTranscript.AddMotif | src/main/java/org/jax/prositometry/ensembl/EnsemblTranscript.java:160-162 | the motif id now maps to the positions and every other entry is unchanged; the key order remains an enumeration of the keys and is unchanged when the id was already present |
| Transcript.EnumerationSize | src/main/java/org/jax/prositometry/html/HtmlGene.java:29 | an iteration order of a key set has as many elements as the set |
| Transcript.EnsemblTranscript.CdnaLen | src/main/java/org/jax/prositometry/ensembl/EnsemblTranscript.java:185-187 | the length of the sequence the record was built with |
| Transcript.EnsemblTranscript.AaLen | src/main/java/org/jax/prositometry/ensembl/EnsemblTranscript.java:189-191 | 0 when there is no ORF, otherwise the length of the longest ORF's protein |
| Transcript.EnsemblTranscript.HtmlMotifString | src/main/java/org/jax/prositometry/ensembl/EnsemblTranscript.java:168-183 | the string-builder loop produces the HTML rendering of the motif map in its iteration order |
| Transcript.MotifHtmlAppend | src/main/java/org/jax/prositometry/ensembl/EnsemblTranscript.java:171-181 | one motif more appends `&nbsp;&nbsp;` (first motif) or `<br/>&nbsp;&nbsp;` (later ones), then that motif's entry |
| Transcript.MotifHtmlEmpty | src/main/java/org/jax/prositometry/ensembl/EnsemblTranscript.java:168-183 | the HTML string is empty exactly when there are no motifs, and otherwise starts with `&nbsp;&nbsp;` |
| Transcript.MotifHtmlContains | src/main/java/org/jax/prositometry/ensembl/EnsemblTranscript.java:178-180 | every motif's entry occurs in the HTML string |
| Transcript.MotifHtmlTwo | src/main/java/org/jax/prositometry/ensembl/EnsemblTranscript.java:172-177 | two motifs render as indent, first entry, line break and indent, second entry |
| Transcript.MotifHtmlExample | src/main/java/org/jax/prositometry/ensembl/EnsemblTranscript.java:168-183 | motif PS00001 at position 12 renders as `&nbsp;&nbsp;PS00001: pos:12` |
| Transcript.PositionsText | src/main/java/org/jax/prositometry/ensembl/EnsemblTranscript.java:179 | the `;`-joined positions are empty exactly when there are none, and one position is its decimal text |
| Transcript.PositionsTextTwo | src/main/java/org/jax/prositometry/ensembl/EnsemblTranscript.java:179 | two positions are joined as the decimal texts with `;` between them |
| Transcript.EnsemblTranscript.ToString | src/main/java/org/jax/prositometry/ensembl/EnsemblTranscript.java:197-206 | the string-builder loop produces symbol, `: `, transcript id, then one `\n\t`-led line per motif in iteration order |
| Transcript.DebugTextAppend | src/main/java/org/jax/prositometry/ensembl/EnsemblTranscript.java:200-204 | one motif more appends `\n\t`, the id, `pos:` and its positions |
| Transcript.DebugTextShape | src/main/java/org/jax/prositometry/ensembl/EnsemblTranscript.java:197-206 | the text starts with `symbol: id`, is exactly that without motifs, and grows by at least six characters per motif |
| Transcript.TextEntriesContain | src/main/java/org/jax/prositometry/ensembl/EnsemblTranscript.java:200-204 | every motif's line occurs in the text |
| Html.DifferenceString | src/main/java/org/jax/prositometry/html/HtmlGene.java:34-37 | the difference text is "none" exactly when the difference set is empty or is exactly `{"none"}`; this is why the flag is computed from the text |
| Html.JoinedNone | src/main/java/org/jax/prositometry/html/HtmlGene.java:36-37 | a non-empty difference list joined by `;` is "none" exactly when it is the one element "none" |
| Html.DifferenceStringContains | src/main/java/org/jax/prositometry/html/HtmlGene.java:34-37 | every difference occurs in the difference string |
| Html.Row | src/main/java/org/jax/prositometry/html/HtmlGene.java:33-45 | the row carries the transcript id, "none" for no differences, the flag true exactly when the difference set is neither empty nor exactly `{"none"}`, the cDNA length, and protein length 0 without an ORF |
| Html.RowContents | src/main/java/org/jax/prositometry/html/HtmlGene.java:34-44 | the row's motif string is the HTML rendering of the transcript's motifs, a non-empty difference set is joined by `;`, and with an ORF the protein length is that of the longest protein |
| Html.LoopRow | src/main/java/org/jax/prositometry/html/HtmlGene.java:33-45 | the loop body's row, with "none" or the `;`-join, the motif string, the flag `!differenceString.equals("none")` and the two lengths, is exactly `Row` of that transcript |
| Html.HtmlGene.constructor | src/main/java/org/jax/prositometry/html/HtmlGene.java:24-47 | copies the symbol and the three statistics; the transcript count is the size of the map; there is one row per transcript, in map iteration order, each the `Row` of that transcript and its differences |

## Left out

- `OrfFinder` (the ORF search and the translation) is not part of this model. The
  constructor takes its answer as an `OrfReport`, and `NewTranscript` takes the finder as a
  function parameter.
- `EnsemblGene` is not part of this model. The `HtmlGene` constructor receives its transcript
  map, the map's iteration order, and `getDifference` as a function from a transcript id to
  the difference set in its iteration order.
- `HbaDealsResult` is a datatype with the four values the constructor reads, and its doubles
  are opaque 64-bit patterns. No floating-point arithmetic is involved.
- `HtmlTranscript` is a datatype of its six constructor arguments. Its class is not part of
  this model.
- HashMap and HashSet iteration order is not determined by Java. The model takes it as a
  given enumeration of the keys.
- AddMotif: does not say where a new key lands in the iteration order, only that it is listed
  once. Java promises no more.
- AddMotif: Java stores the caller's `List` object, so later changes to that list would show
  in the map. The model stores the positions as a value.
- `getMotifMap` and the plain getters of both classes are not separate members. They are
  field reads: the header fields, `cDNA`, `hasOrf`, `longestAaSequence`, and the `HtmlGene`
  constants.
- `Integer.parseInt` also accepts non-ASCII Unicode decimal digits. The model accepts ASCII
  digits only.
- Java string lengths count UTF-16 code units, and the model counts characters. The two
  differ only for characters outside the Basic Multilingual Plane.
- `null` arguments, and the exception Java throws for them, are not modelled.
- The ORF search, the motif scanner, downloading, the command line and the HTML templates are
  outside the modelled core.
