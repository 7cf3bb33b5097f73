/** The New England repeater list: one CSV record becomes a typed record,
    and a typed record becomes a `Repeater` whose input frequency follows
    from the offset direction and the region's standard offsets.

    Frequencies are in MHz. The source's 128-bit decimals are modelled as
    exact `real`s, and parsing a decimal from text is the parameter
    `parse`, a partial function the model knows nothing about. */
module NeRepeater {
  import opened Wrappers

  // ---------------------------------------------------------------------
  // The error kinds and the repeater entity shared by the crate
  // ---------------------------------------------------------------------

  datatype FreqmError =
    | FieldMissing(fieldNum: nat)
    | OutputFreqParseFailure(outputFreq: string)
    | InvalidOffsetKind(offsetKind: string)
    | FreqNotInAnyBand(freq: real)
    | CommentParse(comment: string)

  /** A repeater: where it transmits, and where it listens when known. */
  datatype Repeater = Repeater(outputFreq: real, inputFreq: Option<real>)

  /** One row of the New England list, every column kept as text. */
  datatype NeRepeaterRecord = NeRepeaterRecord(
    outputFreq: string,
    inputOffsetDir: string,
    locationState: string,
    locationTown: string,
    mode: string,
    callsign: string,
    codeIn: string,
    codeOut: string,
    status: string,
    locationCounty: string,
    irlp: string,
    echo: string,
    linksAndComments: string,
    updateTimestamp: Option<string>)

  // ---------------------------------------------------------------------
  // Standard offsets
  // ---------------------------------------------------------------------

  /** A band [low, high] (both ends included) and its repeater offset. */
  datatype Band = Band(low: real, high: real, offset: real)

  predicate InBand(b: Band, mhz: real) {
    b.low <= mhz <= b.high
  }

  /** The region's bands, lowest first: 10 m, 6 m, 2 m, 1.25 m, 70 cm,
      33 cm and 23 cm. */
  const NewEnglandBands: seq<Band> := [
    Band(28.0, 29.7, 0.1),
    Band(50.0, 54.0, 1.0),
    Band(144.0, 148.0, 0.6),
    Band(219.0, 225.0, 1.6),
    Band(420.0, 450.0, 5.0),
    Band(902.0, 928.0, 25.0),
    Band(1240.0, 1300.0, 12.0)
  ]

  /** The standard offset of a frequency, tested band by band. It is
      defined exactly on the listed bands, it is the offset of the band
      holding the frequency, and that offset is smaller than the frequency,
      so an input below the output is still a positive frequency. */
  function StandardOffsetNewEngland(mhz: real): (r: Option<real>)
    ensures r.Some? <==> exists i :: 0 <= i < |NewEnglandBands| && InBand(NewEnglandBands[i], mhz)
    ensures forall i :: 0 <= i < |NewEnglandBands| && InBand(NewEnglandBands[i], mhz) ==>
              r == Some(NewEnglandBands[i].offset)
    ensures r.Some? ==> 0.0 < r.value < mhz
  {
    var bands := NewEnglandBands;
    if 28.0 <= mhz <= 29.7 then assert InBand(bands[0], mhz); Some(0.1)
    else if 50.0 <= mhz <= 54.0 then assert InBand(bands[1], mhz); Some(1.0)
    else if 144.0 <= mhz <= 148.0 then assert InBand(bands[2], mhz); Some(0.6)
    else if 219.0 <= mhz <= 225.0 then assert InBand(bands[3], mhz); Some(1.6)
    else if 420.0 <= mhz <= 450.0 then assert InBand(bands[4], mhz); Some(5.0)
    else if 902.0 <= mhz <= 928.0 then assert InBand(bands[5], mhz); Some(25.0)
    else if 1240.0 <= mhz <= 1300.0 then assert InBand(bands[6], mhz); Some(12.0)
    else None
  }

  /** The bands are listed in increasing order and do not touch, so at most
      one band holds a frequency and the order of the tests is immaterial. */
  lemma BandsOrdered()
    ensures forall i, j :: 0 <= i < j < |NewEnglandBands| ==>
              NewEnglandBands[i].high < NewEnglandBands[j].low
    ensures forall i :: 0 <= i < |NewEnglandBands| ==>
              0.0 < NewEnglandBands[i].low <= NewEnglandBands[i].high
  {
  }

  /** The whole 2 m band uses 600 kHz; the 1 MHz and 1.5 MHz splits some
      2 m machines use are not produced. */
  lemma TwoMetreOffset(mhz: real)
    requires 144.0 <= mhz <= 148.0
    ensures StandardOffsetNewEngland(mhz) == Some(0.6)
  {
    assert InBand(NewEnglandBands[2], mhz);
  }

  /** Between two bands there is no offset: 148 MHz is in the 2 m band,
      anything above it up to 219 MHz is in none. */
  lemma GapHasNoOffset(mhz: real)
    requires 148.0 < mhz < 219.0
    ensures StandardOffsetNewEngland(mhz) == None
  {
  }

  // ---------------------------------------------------------------------
  // A CSV record to a typed record
  // ---------------------------------------------------------------------

  /** The columns of a typed record in file order: thirteen, and the
      timestamp as a fourteenth when present. */
  function ToFields(rec: NeRepeaterRecord): (s: seq<string>)
    ensures |s| == if rec.updateTimestamp.Some? then 14 else 13
  {
    [rec.outputFreq, rec.inputOffsetDir, rec.locationState, rec.locationTown,
     rec.mode, rec.callsign, rec.codeIn, rec.codeOut,
     rec.status, rec.locationCounty, rec.irlp, rec.echo, rec.linksAndComments]
    + (match rec.updateTimestamp
       case Some(t) => [t]
       case None => [])
  }

  /** A CSV record of 13, 14 or 15 fields becomes a typed record, the first
      thirteen fields copied by position and the fourteenth, when present,
      kept as the update timestamp; a fifteenth is the empty field after a
      trailing comma and is dropped. Any other count is refused with the
      count it had. */
  function RecordFromFields(s: seq<string>): (r: Result<NeRepeaterRecord, FreqmError>)
    ensures r.Err? <==> !(|s| == 13 || |s| == 14 || |s| == 15)
    ensures r.Err? ==> r.error == FieldMissing(|s|)
    ensures r.Ok? ==> ToFields(r.value) == if |s| == 13 then s else s[..14]
  {
    if !(|s| == 13 || |s| == 14 || |s| == 15) then
      Err(FieldMissing(|s|))
    else
      Ok(NeRepeaterRecord(
        s[0], s[1], s[2], s[3],
        s[4], s[5], s[6], s[7],
        s[8],
        s[9], s[10], s[11], s[12],
        if |s| > 13 then Some(s[13]) else None))
  }

  /** Writing a record out as its columns and reading them back gives the
      same record. */
  lemma RecordRoundTrip(rec: NeRepeaterRecord)
    ensures RecordFromFields(ToFields(rec)) == Ok(rec)
  {
    var s := ToFields(rec);
    var r := RecordFromFields(s);
    assert r.Ok?;
    assert ToFields(r.value) == s;
    assert r.value.updateTimestamp == rec.updateTimestamp;
  }

  /** The field after a trailing comma does not reach the record. */
  lemma TrailingFieldIgnored(s: seq<string>, extra: string)
    requires |s| == 14
    ensures RecordFromFields(s + [extra]) == RecordFromFields(s)
  {
    assert (s + [extra])[..14] == s;
  }

  // ---------------------------------------------------------------------
  // A typed record to a repeater
  // ---------------------------------------------------------------------

  const InputPrefix: string := "*Input: "

  /** The text before the first space, or all of `s` when it has none:
      what the first item of a split on " " yields. */
  function FirstToken(s: string): (t: string)
    ensures t <= s
    ensures ' ' !in t
    ensures |t| == |s| || s[|t|] == ' '
  {
    if s == [] || s[0] == ' ' then [] else [s[0]] + FirstToken(s[1..])
  }

  /** A token followed by a space and anything else is read back as the
      token. */
  lemma {:induction false} FirstTokenOfSpaced(t: string, rest: string)
    requires ' ' !in t
    ensures FirstToken(t + " " + rest) == t
  {
    var s := t + " " + rest;
    if t == [] {
      assert s[0] == ' ';
    } else {
      assert s[0] == t[0] && s[1..] == t[1..] + " " + rest;
      FirstTokenOfSpaced(t[1..], rest);
    }
  }

  /** The input frequency a record names for its direction, once its output
      frequency `out` is known: `+` and `-` shift by the standard offset,
      `*` reads the first token after the "*Input: " prefix of the comment
      (and gives no input frequency without that prefix), and `S` is
      simplex. */
  function InputFreq(rec: NeRepeaterRecord, out: real, parse: string -> Option<real>)
    : (r: Result<Option<real>, FreqmError>)
  {
    match rec.inputOffsetDir
    case "+" =>
      (match StandardOffsetNewEngland(out)
       case None => Err(FreqNotInAnyBand(out))
       case Some(shift) => Ok(Some(out + shift)))
    case "-" =>
      (match StandardOffsetNewEngland(out)
       case None => Err(FreqNotInAnyBand(out))
       case Some(shift) => Ok(Some(out - shift)))
    case "*" =>
      var c := rec.linksAndComments;
      if InputPrefix <= c then
        (match parse(FirstToken(c[|InputPrefix|..]))
         case None => Err(CommentParse(c))
         case Some(f) => Ok(Some(f)))
      else
        Ok(None)
    case "S" => Ok(Some(out))
    case _ => Err(InvalidOffsetKind(rec.inputOffsetDir))
  }

  /** A typed record becomes a repeater. The output frequency is parsed
      first and a failure there is reported before anything else; on
      success it is carried over unchanged. */
  function RepeaterFromRecord(rec: NeRepeaterRecord, parse: string -> Option<real>)
    : (r: Result<Repeater, FreqmError>)
    ensures parse(rec.outputFreq).None? ==> r == Err(OutputFreqParseFailure(rec.outputFreq))
    ensures r.Ok? ==> parse(rec.outputFreq) == Some(r.value.outputFreq)
  {
    match parse(rec.outputFreq)
    case None => Err(OutputFreqParseFailure(rec.outputFreq))
    case Some(out) =>
      match InputFreq(rec, out, parse)
      case Err(e) => Err(e)
      case Ok(input) => Ok(Repeater(out, input))
  }

  /** Directions other than "+", "-", "*" and "S" are refused, naming the
      direction, once the output frequency has parsed. */
  lemma UnknownDirectionRefused(rec: NeRepeaterRecord, parse: string -> Option<real>)
    requires parse(rec.outputFreq).Some?
    ensures RepeaterFromRecord(rec, parse).Err? && RepeaterFromRecord(rec, parse).error.InvalidOffsetKind?
            <==> rec.inputOffsetDir !in {"+", "-", "*", "S"}
    ensures rec.inputOffsetDir !in {"+", "-", "*", "S"} ==>
              RepeaterFromRecord(rec, parse) == Err(InvalidOffsetKind(rec.inputOffsetDir))
  {
  }

  /** With "+" or "-" the conversion fails exactly when the output frequency
      is in no band; otherwise the input frequency lies one standard offset
      above ("+") or below ("-") the output, and is still positive. */
  lemma ShiftedInput(rec: NeRepeaterRecord, parse: string -> Option<real>, out: real)
    requires parse(rec.outputFreq) == Some(out)
    requires rec.inputOffsetDir == "+" || rec.inputOffsetDir == "-"
    ensures RepeaterFromRecord(rec, parse).Err?
            <==> forall i :: 0 <= i < |NewEnglandBands| ==> !InBand(NewEnglandBands[i], out)
    ensures RepeaterFromRecord(rec, parse).Err? ==>
              RepeaterFromRecord(rec, parse).error == FreqNotInAnyBand(out)
    ensures RepeaterFromRecord(rec, parse).Ok? ==>
              var input := RepeaterFromRecord(rec, parse).value.inputFreq;
              && input.Some?
              && 0.0 < input.value
              && StandardOffsetNewEngland(out)
                 == Some(if rec.inputOffsetDir == "+" then input.value - out else out - input.value)
  {
  }

  /** Simplex: a repeater marked "S" listens where it transmits. */
  lemma SimplexInput(rec: NeRepeaterRecord, parse: string -> Option<real>, out: real)
    requires parse(rec.outputFreq) == Some(out) && rec.inputOffsetDir == "S"
    ensures RepeaterFromRecord(rec, parse) == Ok(Repeater(out, Some(out)))
  {
  }

  /** With "*", a comment without the "*Input: " prefix leaves the input
      frequency unknown, and a comment "*Input: <token> <more>" gives the
      token's value, or a parse error naming the whole comment. */
  lemma CustomInput(rec: NeRepeaterRecord, parse: string -> Option<real>, out: real)
    requires parse(rec.outputFreq) == Some(out) && rec.inputOffsetDir == "*"
    ensures !(InputPrefix <= rec.linksAndComments) ==>
              RepeaterFromRecord(rec, parse) == Ok(Repeater(out, None))
    ensures RepeaterFromRecord(rec, parse).Ok? && RepeaterFromRecord(rec, parse).value.inputFreq.None?
            ==> !(InputPrefix <= rec.linksAndComments)
    ensures RepeaterFromRecord(rec, parse).Err? ==>
              RepeaterFromRecord(rec, parse).error == CommentParse(rec.linksAndComments)
  {
  }

  /** The input frequency of a comment written as "*Input: " followed by a
      token and then either nothing or a space and anything else is the
      token's parsed value: the first space-separated item is the one read. */
  lemma CustomInputToken(rec: NeRepeaterRecord, parse: string -> Option<real>,
                         out: real, token: string, tail: string)
    requires parse(rec.outputFreq) == Some(out) && rec.inputOffsetDir == "*"
    requires rec.linksAndComments == InputPrefix + token + tail && ' ' !in token
    requires tail == "" || tail[0] == ' '
    ensures parse(token).Some? ==> RepeaterFromRecord(rec, parse) == Ok(Repeater(out, parse(token)))
    ensures parse(token).None? ==>
              RepeaterFromRecord(rec, parse) == Err(CommentParse(rec.linksAndComments))
  {
    var c := rec.linksAndComments;
    assert InputPrefix <= c;
    assert c[|InputPrefix|..] == token + tail;
    if tail == "" {
      assert token + tail == token;
      assert FirstToken(token) == token;
    } else {
      assert tail == " " + tail[1..];
      assert token + tail == token + " " + tail[1..];
      FirstTokenOfSpaced(token, tail[1..]);
    }
  }

  /** Only the output frequency, the direction and the comment decide the
      repeater; location, mode, codes and the rest are not consulted. */
  lemma OnlyThreeFieldsMatter(a: NeRepeaterRecord, b: NeRepeaterRecord, parse: string -> Option<real>)
    requires a.outputFreq == b.outputFreq && a.inputOffsetDir == b.inputOffsetDir
    requires a.linksAndComments == b.linksAndComments
    ensures RepeaterFromRecord(a, parse) == RepeaterFromRecord(b, parse)
  {
  }
}
