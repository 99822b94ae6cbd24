/**
 * `parse_honey_logs`, `parse_dionaea_logs` and `parse_tanner_logs`: strip the blob,
 * split it on newlines, decode every line, flatten every event, build the frame.
 */
module LogParser {
  import opened Wrappers
  import opened Dicts
  import opened Json
  import opened Text
  import opened Records
  import opened Frames

  /** Why parsing a whole log failed. */
  datatype ParseError =
    | InvalidJson(line: nat)                      // json.loads raised on this line
    | BadRecord(record: nat, cause: FieldError)   // flattening this event raised

  /** The index of the first element that failed, and why. */
  datatype Failed<E> = Failed(index: nat, cause: E)

  /** Applies f to every element in order; the first failure aborts the whole run. */
  function MapAll<A, B, E>(xs: seq<A>, f: A -> Result<B, E>): Result<seq<B>, Failed<E>> {
    if xs == [] then Success([])
    else
      var prev :- MapAll(xs[..|xs| - 1], f);
      match f(xs[|xs| - 1])
      case Success(y) => Success(prev + [y])
      case Failure(e) => Failure(Failed(|xs| - 1, e))
  }

  /**
   * MapAll succeeds exactly when f succeeds on every element, and then gives one
   * result per element, in order; otherwise it reports the first element that fails.
   */
  lemma {:induction false} MapAllSpec<A, B, E>(xs: seq<A>, f: A -> Result<B, E>)
    ensures MapAll(xs, f).Success? <==> forall i :: 0 <= i < |xs| ==> f(xs[i]).Success?
    ensures MapAll(xs, f).Success? ==>
              var ys := MapAll(xs, f).value;
              |ys| == |xs| && forall i :: 0 <= i < |xs| ==> ys[i] == f(xs[i]).value
    ensures MapAll(xs, f).Failure? ==>
              var e := MapAll(xs, f).error;
              && e.index < |xs| && f(xs[e.index]) == Failure(e.cause)
              && forall j :: 0 <= j < e.index ==> f(xs[j]).Success?
  {
    if xs != [] {
      var init := xs[..|xs| - 1];
      MapAllSpec(init, f);
      assert forall i :: 0 <= i < |init| ==> init[i] == xs[i];
    }
  }

  /** The next step of a MapAll whose prefix succeeded. */
  lemma MapAllStep<A, B, E>(xs: seq<A>, f: A -> Result<B, E>, i: nat, acc: seq<B>)
    requires i < |xs| && MapAll(xs[..i], f) == Success(acc)
    ensures MapAll(xs[..i + 1], f) == match f(xs[i])
                                      case Success(y) => Success(acc + [y])
                                      case Failure(e) => Failure(Failed(i, e))
  {
    assert xs[..i + 1][..i] == xs[..i];
  }

  /** Once a prefix has failed, the whole run fails the same way. */
  lemma {:induction false} MapAllFailed<A, B, E>(xs: seq<A>, f: A -> Result<B, E>, i: nat)
    requires i <= |xs| && MapAll(xs[..i], f).Failure?
    ensures MapAll(xs, f) == MapAll(xs[..i], f).PropagateFailure()
    decreases |xs| - i
  {
    if i < |xs| {
      assert xs[..i + 1][..i] == xs[..i];
      MapAllFailed(xs, f, i + 1);
    } else {
      assert xs[..i] == xs;
    }
  }

  /** `logs.strip().split('\n')`. */
  function Lines(logs: string): (ls: seq<string>)
    ensures |ls| >= 1
    ensures forall i :: 0 <= i < |ls| ==> '\n' !in ls[i]
    ensures Join(ls) == Strip(logs)
  {
    Split(Strip(logs))
  }

  datatype Undecodable = Undecodable

  /**
   * `json.loads(line)`: a line with nothing but JSON whitespace holds no value and
   * raises; any other line is decoded by `decode`, which stands for the JSON parser.
   */
  function DecodeLine(decode: string -> Option<Json>, line: string): (r: Result<Json, Undecodable>)
    ensures JsonBlank(line) ==> r.Failure?
  {
    if JsonBlank(line) then Failure(Undecodable)
    else match decode(line)
      case Some(v) => Success(v)
      case None => Failure(Undecodable)
  }

  /** `[json.loads(line) for line in logs.strip().split('\n')]`. */
  function DecodeAll(logs: string, decode: string -> Option<Json>): Result<seq<Json>, ParseError> {
    match MapAll(Lines(logs), line => DecodeLine(decode, line))
    case Success(events) => Success(events)
    case Failure(Failed(i, _)) => Failure(InvalidJson(i))
  }

  /** The `for log in json_logs` loop: one flat record per event, in order. */
  function FlattenAll(events: seq<Json>, flatten: Json -> Result<Row, FieldError>): Result<seq<Row>, ParseError> {
    match MapAll(events, flatten)
    case Success(rows) => Success(rows)
    case Failure(Failed(i, e)) => Failure(BadRecord(i, e))
  }

  /** The records of a whole log, before they become a frame. */
  function ParseRows(logs: string, decode: string -> Option<Json>, flatten: Json -> Result<Row, FieldError>)
    : Result<seq<Row>, ParseError>
  {
    var events :- DecodeAll(logs, decode);
    FlattenAll(events, flatten)
  }

  /** `parse_honey_logs` (timestamps stay as decoded). */
  function HoneyLogs(logs: string, decode: string -> Option<Json>): (r: Result<Frame, ParseError>)
    ensures r.Success? ==> |r.value.rows| == |Lines(logs)|
  {
    ParseRowsSpec(logs, decode, HoneyRecord);
    var rows :- ParseRows(logs, decode, HoneyRecord);
    Success(MapTrapped(ToFrame(rows)))
  }

  /** `parse_dionaea_logs` (timestamps stay as decoded). */
  function DionaeaLogs(logs: string, decode: string -> Option<Json>): (r: Result<Frame, ParseError>)
    ensures r.Success? ==> |r.value.rows| == |Lines(logs)|
  {
    ParseRowsSpec(logs, decode, DionaeaRecord);
    var rows :- ParseRows(logs, decode, DionaeaRecord);
    Success(ToFrame(rows))
  }

  /** `parse_tanner_logs` (timestamps stay as decoded). */
  function TannerLogs(logs: string, decode: string -> Option<Json>): (r: Result<Frame, ParseError>)
    ensures r.Success? ==> |r.value.rows| == |Lines(logs)|
  {
    ParseRowsSpec(logs, decode, TannerRecord);
    var rows :- ParseRows(logs, decode, TannerRecord);
    Success(ToFrame(rows))
  }

  // ------------------------------------------------------------------ the loops

  /** `parse_honey_logs`, with its record loop and the header loop inside FlattenHoney. */
  method ParseHoneyLogs(logs: string, decode: string -> Option<Json>) returns (r: Result<Frame, ParseError>)
    ensures r == HoneyLogs(logs, decode)
  {
    var jsonLogs :- DecodeAll(logs, decode);
    var flatData: seq<Row> := [];
    for i := 0 to |jsonLogs|
      invariant MapAll(jsonLogs[..i], HoneyRecord) == Success(flatData)
    {
      var flatLog := FlattenHoney(jsonLogs[i]);
      MapAllStep(jsonLogs, HoneyRecord, i, flatData);
      if flatLog.Failure? {
        MapAllFailed(jsonLogs, HoneyRecord, i + 1);
        return Failure(BadRecord(i, flatLog.error));
      }
      flatData := flatData + [flatLog.value];
    }
    assert jsonLogs[..|jsonLogs|] == jsonLogs;
    return Success(MapTrapped(ToFrame(flatData)));
  }

  /** The record loop shared by `parse_dionaea_logs` and `parse_tanner_logs`. */
  method FlattenEvents(jsonLogs: seq<Json>, flatten: Json -> Result<Row, FieldError>)
    returns (r: Result<seq<Row>, ParseError>)
    ensures r == FlattenAll(jsonLogs, flatten)
  {
    var flatData: seq<Row> := [];
    for i := 0 to |jsonLogs|
      invariant MapAll(jsonLogs[..i], flatten) == Success(flatData)
    {
      var flatLog := flatten(jsonLogs[i]);
      MapAllStep(jsonLogs, flatten, i, flatData);
      if flatLog.Failure? {
        MapAllFailed(jsonLogs, flatten, i + 1);
        return Failure(BadRecord(i, flatLog.error));
      }
      flatData := flatData + [flatLog.value];
    }
    assert jsonLogs[..|jsonLogs|] == jsonLogs;
    return Success(flatData);
  }

  /** `parse_dionaea_logs`. */
  method ParseDionaeaLogs(logs: string, decode: string -> Option<Json>) returns (r: Result<Frame, ParseError>)
    ensures r == DionaeaLogs(logs, decode)
  {
    var jsonLogs :- DecodeAll(logs, decode);
    var flatData :- FlattenEvents(jsonLogs, DionaeaRecord);
    return Success(ToFrame(flatData));
  }

  /** `parse_tanner_logs`. */
  method ParseTannerLogs(logs: string, decode: string -> Option<Json>) returns (r: Result<Frame, ParseError>)
    ensures r == TannerLogs(logs, decode)
  {
    var jsonLogs :- DecodeAll(logs, decode);
    var flatData :- FlattenEvents(jsonLogs, TannerRecord);
    return Success(ToFrame(flatData));
  }

  // ------------------------------------------------------------- what parsing gives

  /**
   * One record per line of the stripped blob, in line order; the whole log fails
   * when any line cannot be decoded (the first such line is reported, before any
   * event is flattened) or, all lines decoded, when any event cannot be flattened
   * (the first such event is reported).
   */
  lemma ParseRowsSpec(logs: string, decode: string -> Option<Json>, flatten: Json -> Result<Row, FieldError>)
    ensures var lines := Lines(logs);
            ParseRows(logs, decode, flatten).Success? <==>
              forall i :: 0 <= i < |lines| ==>
                DecodeLine(decode, lines[i]).Success? && flatten(DecodeLine(decode, lines[i]).value).Success?
    ensures var lines := Lines(logs);
            ParseRows(logs, decode, flatten).Success? ==>
              var rows := ParseRows(logs, decode, flatten).value;
              && |rows| == |lines|
              && forall i :: 0 <= i < |lines| ==>
                   DecodeLine(decode, lines[i]).Success? && rows[i] == flatten(DecodeLine(decode, lines[i]).value).value
    ensures var lines := Lines(logs);
            ParseRows(logs, decode, flatten).Failure? ==>
              match ParseRows(logs, decode, flatten).error
              case InvalidJson(i) =>
                && i < |lines| && DecodeLine(decode, lines[i]).Failure?
                && forall j :: 0 <= j < i ==> DecodeLine(decode, lines[j]).Success?
              case BadRecord(i, e) =>
                && i < |lines|
                && (forall j :: 0 <= j < |lines| ==> DecodeLine(decode, lines[j]).Success?)
                && flatten(DecodeLine(decode, lines[i]).value) == Failure(e)
                && forall j :: 0 <= j < i ==> flatten(DecodeLine(decode, lines[j]).value).Success?
  {
    DecodeAllSpec(logs, decode);
    if DecodeAll(logs, decode).Success? {
      FlattenAllSpec(DecodeAll(logs, decode).value, flatten);
    }
  }

  /** Decoding succeeds when every line decodes, giving one event per line; otherwise it names the first bad line. */
  lemma DecodeAllSpec(logs: string, decode: string -> Option<Json>)
    ensures var lines := Lines(logs);
            DecodeAll(logs, decode).Success? <==> forall i :: 0 <= i < |lines| ==> DecodeLine(decode, lines[i]).Success?
    ensures var lines := Lines(logs);
            DecodeAll(logs, decode).Success? ==>
              var events := DecodeAll(logs, decode).value;
              && |events| == |lines|
              && forall i :: 0 <= i < |lines| ==> events[i] == DecodeLine(decode, lines[i]).value
    ensures var lines := Lines(logs);
            DecodeAll(logs, decode).Failure? ==>
              var e := DecodeAll(logs, decode).error;
              && e.InvalidJson? && e.line < |lines| && DecodeLine(decode, lines[e.line]).Failure?
              && forall j :: 0 <= j < e.line ==> DecodeLine(decode, lines[j]).Success?
  {
    MapAllSpec(Lines(logs), line => DecodeLine(decode, line));
  }

  /** Flattening succeeds when every event flattens, giving one record per event; otherwise it names the first bad event. */
  lemma FlattenAllSpec(events: seq<Json>, flatten: Json -> Result<Row, FieldError>)
    ensures FlattenAll(events, flatten).Success? <==> forall i :: 0 <= i < |events| ==> flatten(events[i]).Success?
    ensures FlattenAll(events, flatten).Success? ==>
              var rows := FlattenAll(events, flatten).value;
              && |rows| == |events|
              && forall i :: 0 <= i < |events| ==> rows[i] == flatten(events[i]).value
    ensures FlattenAll(events, flatten).Failure? ==>
              var e := FlattenAll(events, flatten).error;
              && e.BadRecord? && e.record < |events| && flatten(events[e.record]) == Failure(e.cause)
              && forall j :: 0 <= j < e.record ==> flatten(events[j]).Success?
  {
    MapAllSpec(events, flatten);
  }

  /** A blank line anywhere (an empty interior line, say) makes the whole log fail to decode. */
  lemma BlankLineFails(logs: string, decode: string -> Option<Json>, flatten: Json -> Result<Row, FieldError>, i: nat)
    requires i < |Lines(logs)| && JsonBlank(Lines(logs)[i])
    ensures ParseRows(logs, decode, flatten).Failure?
    ensures ParseRows(logs, decode, flatten).error.InvalidJson?
    ensures ParseRows(logs, decode, flatten).error.line <= i
  {
    ParseRowsSpec(logs, decode, flatten);
  }

  /** A log holding nothing but whitespace splits into one empty line, which fails. */
  lemma BlankLogFails(logs: string, decode: string -> Option<Json>, flatten: Json -> Result<Row, FieldError>)
    requires AllSpace(logs)
    ensures ParseRows(logs, decode, flatten) == Failure(InvalidJson(0))
  {
    assert Lines(logs) == [""];
    ParseRowsSpec(logs, decode, flatten);
  }

  /** A Honeytrap line whose event lacks a required key makes the whole log fail. */
  lemma HoneyMissingKeyFails(logs: string, decode: string -> Option<Json>, i: nat, members: seq<(string, Json)>, k: nat)
    requires i < |Lines(logs)| && DecodeLine(decode, Lines(logs)[i]) == Success(JObj(members))
    requires k < |HoneyKeys| && !HasKey(members, HoneyKeys[k])
    ensures HoneyLogs(logs, decode).Failure?
  {
    ParseRowsSpec(logs, decode, HoneyRecord);
    HoneyRecordSucceeds(JObj(members));
  }

  /** A Honeytrap frame has one row per line, and its columns are the union of its records' keys. */
  lemma HoneyFrameShape(logs: string, decode: string -> Option<Json>)
    requires HoneyLogs(logs, decode).Success?
    ensures var f := HoneyLogs(logs, decode).value;
            && |f.rows| == |Lines(logs)|
            && f.columns == Columns(ParseRows(logs, decode, HoneyRecord).value)
            && forall c :: c in f.columns <==>
                 exists i :: 0 <= i < |f.rows| && HasKey(ParseRows(logs, decode, HoneyRecord).value[i], c)
  {
    ParseRowsSpec(logs, decode, HoneyRecord);
  }

  /** Line i of a parsed Honeytrap log is an object whose record is row i of the frame, before mapping. */
  lemma HoneyLine(logs: string, decode: string -> Option<Json>, i: nat)
    requires HoneyLogs(logs, decode).Success? && i < |Lines(logs)|
    ensures DecodeLine(decode, Lines(logs)[i]).Success?
    ensures var event := DecodeLine(decode, Lines(logs)[i]).value;
            var rows := ParseRows(logs, decode, HoneyRecord).value;
            && event.JObj? && HoneyRecord(event).Success?
            && i < |rows| && rows[i] == HoneyRecord(event).value
            && HoneyLogs(logs, decode).value == MapTrapped(ToFrame(rows))
  {
    ParseRowsSpec(logs, decode, HoneyRecord);
    HoneyRecordSucceeds(DecodeLine(decode, Lines(logs)[i]).value);
  }

  /**
   * A `header_` cell of a Honeytrap frame holds the value of the last header of that
   * line's event rewritten to it, and is missing (not `''`) when the event has none.
   */
  lemma HoneyHeaderCell(logs: string, decode: string -> Option<Json>, i: nat, K: string)
    requires HoneyLogs(logs, decode).Success? && i < |Lines(logs)|
    requires StartsWith(K, HeaderPrefix)
    ensures DecodeLine(decode, Lines(logs)[i]).Success? && DecodeLine(decode, Lines(logs)[i]).value.JObj?
    ensures var f := HoneyLogs(logs, decode).value;
            var members := DecodeLine(decode, Lines(logs)[i]).value.members;
            i < |f.rows| && CellAt(f, i, K) == AsCell(HeaderFor(Items(members), K))
  {
    HoneyLine(logs, decode, i);
    var members := DecodeLine(decode, Lines(logs)[i]).value.members;
    HeaderCellOfRecord(ParseRows(logs, decode, HoneyRecord).value, i, members, K);
  }

  lemma HeaderCellOfRecord(rows: seq<Row>, i: nat, members: seq<(string, Json)>, K: string)
    requires HoneyRecord(JObj(members)).Success?
    requires i < |rows| && rows[i] == HoneyRecord(JObj(members)).value
    requires StartsWith(K, HeaderPrefix)
    ensures CellAt(MapTrapped(ToFrame(rows)), i, K) == AsCell(HeaderFor(Items(members), K))
  {
    var f0 := ToFrame(rows);
    HeaderNotTrapped(K);
    MapTrappedCell(f0, i, K);
    HoneyRecordLookup(members, K);
  }

  /** The `trapped` cell of a Honeytrap frame is the line's `trapped` value, coerced. */
  lemma HoneyTrappedCell(logs: string, decode: string -> Option<Json>, i: nat)
    requires HoneyLogs(logs, decode).Success? && i < |Lines(logs)|
    ensures DecodeLine(decode, Lines(logs)[i]).Success? && DecodeLine(decode, Lines(logs)[i]).value.JObj?
    ensures var f := HoneyLogs(logs, decode).value;
            var members := DecodeLine(decode, Lines(logs)[i]).value.members;
            && i < |f.rows| && HasKey(members, "trapped")
            && CellAt(f, i, "trapped") == CoerceTrapped(Present(LastFor(members, "trapped").value))
  {
    HoneyLine(logs, decode, i);
    var members := DecodeLine(decode, Lines(logs)[i]).value.members;
    var rows := ParseRows(logs, decode, HoneyRecord).value;
    MapTrappedCell(ToFrame(rows), i, "trapped");
    HoneyTrappedValue(members);
  }

  /** Before mapping, a Honeytrap record's `trapped` column holds the input's `trapped` value. */
  lemma HoneyTrappedValue(members: seq<(string, Json)>)
    requires HoneyRecord(JObj(members)).Success?
    ensures HasKey(members, "trapped")
    ensures Lookup(HoneyRecord(JObj(members)).value, "trapped") == Some(Present(LastFor(members, "trapped").value))
  {
    var row := HoneyRecord(JObj(members)).value;
    HoneyFixedColumn(members, 6);
    assert HoneyRequired[6] == ("trapped", ["trapped"]);
    SingleKeyPath(JObj(members), "trapped");
    HoneyRecordColumns(members);
    LookupAtUnique(row, 6, "trapped");
  }
}
