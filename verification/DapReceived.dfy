/** What the records of any peer become: its attributes choose the format, and the lines of
    a text end up each with its line feed, whatever ends them on the wire. */
module DapReceived {
  import opened Bits
  import opened Wrappers
  import opened DapField
  import opened DapFile
  import opened DapAttributes
  import opened AttributeTrip
  import opened DapTransfer
  import opened DapPut

  const FIXED_LENGTH := 1
  const VARIABLE_LENGTH := 2
  const CARRIAGE_RETURN := 1  // the record attribute for implied line ends

  /** The record format that the kept attributes stand for. */
  ghost function FormatOf(r: Remote): Format {
    if r.rfm == VARIABLE_LENGTH then Variable(Reads(r.rat, CARRIAGE_RETURN))
    else if r.rfm == STREAM then Stream
    else if r.rfm == FIXED_LENGTH then Fixed
    else Undefined
  }

  /** The record format a peer announces, with the record attributes beside it. */
  ghost predicate Tells(fields: map<nat, seq<byte>>, fmt: Format) {
    && RFM in fields
    && match fmt
       case Variable(implied) =>
         && fields[RFM] == [VARIABLE_LENGTH] && RAT in fields && IsField(fields[RAT])
         && (ExGet(fields[RAT], CARRIAGE_RETURN) <==> implied)
       case Stream => fields[RFM] == [STREAM]
       case Fixed => fields[RFM] == [FIXED_LENGTH]
       case Undefined => |fields[RFM]| == 1 && fields[RFM][0] !in {FIXED_LENGTH, VARIABLE_LENGTH, STREAM}
  }

  /** The format announced is the one in which records are taken. */
  lemma FormatTaken(r: Remote, menu: seq<byte>, fields: map<nat, seq<byte>>, rest: seq<byte>, fmt: Format)
    requires Lists(menu, fields) && AllWellFormed(fields) && !Refused(fields) && Tells(fields, fmt)
    ensures AllShaped(fields) && FormatOf(Updated(r, fields)) == fmt
  {
    AttributesKept(r, menu, fields, rest);
    var now := Updated(r, fields);
    assert ByteKept(fields, RFM, r.rfm, now.rfm) && SetKept(fields, RAT, r.rat, now.rat);
    assert fields[RFM] == [now.rfm];
  }

  // ---- Lines ----

  datatype Ending = CrLf | LfCr | OnlyLf

  function Ended(line: seq<byte>, e: Ending): seq<byte> {
    line + match e
      case CrLf => [CR, LF]
      case LfCr => [LF, CR]
      case OnlyLf => [LF]
  }

  /** A lone line feed ends a line that has no carriage return before it. */
  predicate Fits(line: seq<byte>, e: Ending) {
    e == OnlyLf ==> line == [] || line[|line| - 1] != CR
  }

  function EndedLines(lines: seq<seq<byte>>, ends: seq<Ending>): seq<seq<byte>>
    requires |ends| == |lines|
  {
    seq(|lines|, i requires 0 <= i < |lines| => Ended(lines[i], ends[i]))
  }

  function Text(lines: seq<seq<byte>>): seq<byte> {
    if lines == [] then [] else lines[0] + [LF] + Text(lines[1..])
  }

  lemma PairStored(line: seq<byte>, pair: seq<byte>)
    requires pair == [CR, LF] || pair == [LF, CR]
    ensures Stored(Stream, line + pair) == line + [LF]
  {
    var d := line + pair;
    assert d[|d| - 2..] == pair && d[..|d| - 2] == line;
    assert d[|d| - 2] == pair[0] && d[|d| - 1] == pair[1];
  }

  lemma LoneStored(line: seq<byte>)
    requires line == [] || line[|line| - 1] != CR
    ensures Stored(Stream, line + [LF]) == line + [LF]
  {
    var d := line + [LF];
    assert d[|d| - 1] == LF;
    if line != [] { assert d[|d| - 2] == line[|line| - 1]; }
  }

  lemma LineStored(line: seq<byte>, e: Ending)
    requires Fits(line, e)
    ensures Stored(Stream, Ended(line, e)) == line + [LF]
  {
    match e
    case CrLf => PairStored(line, [CR, LF]);
    case LfCr => PairStored(line, [LF, CR]);
    case OnlyLf => LoneStored(line);
  }

  /** Lines of a stream text, however each of them ends, are stored with line feeds. */
  lemma {:induction false} StreamLines(lines: seq<seq<byte>>, ends: seq<Ending>)
    requires |ends| == |lines| && forall i :: 0 <= i < |lines| ==> Fits(lines[i], ends[i])
    ensures StoredAll(Stream, EndedLines(lines, ends)) == Text(lines)
  {
    var records := EndedLines(lines, ends);
    if lines == [] {
    } else {
      StreamLines(lines[1..], ends[1..]);
      LineStored(lines[0], ends[0]);
      assert records[1..] == EndedLines(lines[1..], ends[1..]);
    }
  }

  /** So are variable records with implied line ends. */
  lemma {:induction false} ImpliedLines(lines: seq<seq<byte>>)
    ensures StoredAll(Variable(true), lines) == Text(lines)
  {
    if lines == [] {
    } else {
      ImpliedLines(lines[1..]);
    }
  }

  /** A text sent by any peer that announces a stream, or variable records with implied line
      ends, is stored line by line. */
  lemma TextStored(r: Remote, menu: seq<byte>, fields: map<nat, seq<byte>>, lines: seq<seq<byte>>,
                   ends: seq<Ending>, records: seq<seq<byte>>, fmt: Format)
    requires Lists(menu, fields) && AllWellFormed(fields) && !Refused(fields) && Tells(fields, fmt)
    requires |ends| == |lines| && forall i :: 0 <= i < |lines| ==> Fits(lines[i], ends[i])
    requires (fmt == Stream && records == EndedLines(lines, ends)) || (fmt == Variable(true) && records == lines)
    ensures AllShaped(fields) && StoredAll(FormatOf(Updated(r, fields)), records) == Text(lines)
  {
    FormatTaken(r, menu, fields, [], fmt);
    if fmt == Stream { StreamLines(lines, ends); } else { ImpliedLines(lines); }
  }

  // ---- Access Complete ----

  /** An end of stream, alone or with options, which something of at least two bytes, the
      checksum, may follow. */
  ghost predicate EndOfStream(data: seq<byte>, options: seq<byte>, rest: seq<byte>) {
    && data == [ENDSTREAM] + options + rest && |rest| != 1
    && (options == [] ==> rest == []) && (options != [] ==> Extends(options, 6))
  }

  /** The file stays open exactly after a well-formed end of stream. */
  lemma StaysOpenExactly(data: seq<byte>)
    ensures StaysOpen(data) <==> exists options, rest :: EndOfStream(data, options, rest)
  {
    if StaysOpen(data) {
      var t := data[1..];
      assert data == [ENDSTREAM] + t;
      if t == [] {
        assert EndOfStream(data, [], []);
      } else {
        var n := ExSize(t, 6).value;
        ExSizeField(t, 6);
        assert t == t[..n] + t[n..];
        assert data == [ENDSTREAM] + t[..n] + t[n..];
        assert EndOfStream(data, t[..n], t[n..]);
      }
    }
    forall options, rest | EndOfStream(data, options, rest) ensures StaysOpen(data) {
      assert data[1..] == options + rest;
      if options != [] { ExSizeOfField(options, rest, 6); }
    }
  }
}
