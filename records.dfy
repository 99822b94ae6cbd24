/**
 * The three record flatteners of data/json_to_csv.py: each turns one decoded
 * sensor event into one flat record (an ordered dict from column name to cell).
 */
module Records {
  import opened Wrappers
  import opened Dicts
  import opened Json
  import opened Text

  /** A table cell: a value, or missing (pandas' NaN). */
  datatype Cell = Present(v: Json) | Missing

  /** A flat record: column names in insertion order, with their cells. */
  type Row = seq<(string, Cell)>

  /** One entry of a `flat_log` dict literal: the output column and the key path it reads. */
  type FieldSpec = (string, seq<string>)

  /** Every key path of the literal can be followed in log. */
  predicate Resolves(log: Json, spec: seq<FieldSpec>) {
    forall i :: 0 <= i < |spec| ==> Path(log, spec[i].1).Success?
  }

  /**
   * Evaluates a `flat_log` dict literal entry by entry, in order: the first key
   * path that cannot be followed raises and aborts the literal.
   */
  function FlattenFixed(log: Json, spec: seq<FieldSpec>): (r: Result<Row, FieldError>)
    ensures r.Success? ==> |r.value| == |spec|
    decreases |spec|
  {
    if spec == [] then Success([])
    else
      var v :- Path(log, spec[0].1);
      var rest :- FlattenFixed(log, spec[1..]);
      Success([(spec[0].0, Present(v))] + rest)
  }

  /** The literal without its first entry resolves when the whole literal does, and conversely once the first path resolves. */
  lemma ResolvesTail(log: Json, spec: seq<FieldSpec>)
    requires spec != []
    ensures Resolves(log, spec) <==> Path(log, spec[0].1).Success? && Resolves(log, spec[1..])
  {
    if Path(log, spec[0].1).Success? && Resolves(log, spec[1..]) {
      forall i | 0 <= i < |spec| ensures Path(log, spec[i].1).Success? {
        if i > 0 { assert spec[i] == spec[1..][i - 1]; }
      }
    }
    if Resolves(log, spec) {
      forall i | 0 <= i < |spec| - 1 ensures Path(log, spec[1..][i].1).Success? {
        assert spec[1..][i] == spec[i + 1];
      }
    }
  }

  /** A literal succeeds exactly when all its key paths resolve. */
  lemma {:induction false} FlattenFixedResolves(log: Json, spec: seq<FieldSpec>)
    ensures FlattenFixed(log, spec).Success? <==> Resolves(log, spec)
    decreases |spec|
  {
    if spec != [] {
      FlattenFixedResolves(log, spec[1..]);
      ResolvesTail(log, spec);
    }
  }

  /** A successful literal has one column per entry, in order, holding the value its path reaches. */
  lemma {:induction false} FlattenFixedValues(log: Json, spec: seq<FieldSpec>)
    requires FlattenFixed(log, spec).Success?
    ensures Resolves(log, spec)
    ensures var row := FlattenFixed(log, spec).value;
            && |row| == |spec|
            && forall i :: 0 <= i < |spec| ==> row[i] == (spec[i].0, Present(Path(log, spec[i].1).value))
    decreases |spec|
  {
    FlattenFixedResolves(log, spec);
    if spec != [] {
      FlattenFixedValues(log, spec[1..]);
      var rest := FlattenFixed(log, spec[1..]).value;
      assert FlattenFixed(log, spec).value == [(spec[0].0, Present(Path(log, spec[0].1).value))] + rest;
      ValuesCons(log, spec, rest);
    }
  }

  /** The first entry's column put before the columns of the other entries lines up with the whole literal. */
  lemma ValuesCons(log: Json, spec: seq<FieldSpec>, rest: Row)
    requires spec != [] && Resolves(log, spec) && Resolves(log, spec[1..])
    requires |rest| == |spec| - 1
    requires forall i :: 0 <= i < |rest| ==> rest[i] == (spec[1..][i].0, Present(Path(log, spec[1..][i].1).value))
    ensures var row := [(spec[0].0, Present(Path(log, spec[0].1).value))] + rest;
            && |row| == |spec|
            && forall i :: 0 <= i < |spec| ==> row[i] == (spec[i].0, Present(Path(log, spec[i].1).value))
  {
    var row := [(spec[0].0, Present(Path(log, spec[0].1).value))] + rest;
    forall i | 1 <= i < |spec| ensures row[i] == (spec[i].0, Present(Path(log, spec[i].1).value)) {
      assert row[i] == rest[i - 1] && spec[1..][i - 1] == spec[i];
    }
  }

  /** Entry i is the first entry of the literal whose path fails, and it fails with e. */
  predicate FailsFirstAt(log: Json, spec: seq<FieldSpec>, i: int, e: FieldError) {
    && 0 <= i < |spec|
    && Path(log, spec[i].1) == Failure(e)
    && forall j :: 0 <= j < i ==> Path(log, spec[j].1).Success?
  }

  /** Behind a first entry that resolves, the first failing entry moves one place on. */
  lemma FailsFirstShift(log: Json, spec: seq<FieldSpec>, i: int, e: FieldError)
    requires spec != [] && Path(log, spec[0].1).Success?
    requires FailsFirstAt(log, spec[1..], i, e)
    ensures FailsFirstAt(log, spec, i + 1, e)
  {
    assert spec[i + 1] == spec[1..][i];
    forall j | 0 <= j < i + 1 ensures Path(log, spec[j].1).Success? {
      if j > 0 { assert spec[j] == spec[1..][j - 1]; }
    }
  }

  /** A failing literal reports the error of its first path that fails. */
  lemma {:induction false} FlattenFixedFirstError(log: Json, spec: seq<FieldSpec>)
    requires FlattenFixed(log, spec).Failure?
    ensures exists i :: FailsFirstAt(log, spec, i, FlattenFixed(log, spec).error)
    decreases |spec|
  {
    var e := FlattenFixed(log, spec).error;
    if Path(log, spec[0].1).Success? {
      assert FlattenFixed(log, spec[1..]).error == e;
      FlattenFixedFirstError(log, spec[1..]);
      var i :| FailsFirstAt(log, spec[1..], i, e);
      FailsFirstShift(log, spec, i, e);
    } else {
      assert FailsFirstAt(log, spec, 0, e);
    }
  }

  /**
   * A literal succeeds exactly when all its paths resolve; the record then has one
   * column per entry, in order, holding the value the path reaches; otherwise the
   * error is that of the first path that fails.
   */
  lemma FlattenFixedSpec(log: Json, spec: seq<FieldSpec>)
    ensures FlattenFixed(log, spec).Success? <==> Resolves(log, spec)
    ensures FlattenFixed(log, spec).Success? ==>
              var row := FlattenFixed(log, spec).value;
              && |row| == |spec|
              && forall i :: 0 <= i < |spec| ==> row[i] == (spec[i].0, Present(Path(log, spec[i].1).value))
    ensures FlattenFixed(log, spec).Failure? ==> exists i :: FailsFirstAt(log, spec, i, FlattenFixed(log, spec).error)
  {
    FlattenFixedResolves(log, spec);
    if FlattenFixed(log, spec).Success? {
      FlattenFixedValues(log, spec);
    } else {
      FlattenFixedFirstError(log, spec);
    }
  }

  /** A successful literal has exactly the literal's columns, in its order. */
  lemma FlattenFixedColumns(log: Json, spec: seq<FieldSpec>)
    requires FlattenFixed(log, spec).Success?
    ensures Keys(FlattenFixed(log, spec).value) == Keys(spec)
  {
    FlattenFixedSpec(log, spec);
  }

  // ---------------------------------------------------------------- Dionaea

  /** The Dionaea `flat_log` literal (data/json_to_csv.py:54-63). */
  const DionaeaFields: seq<FieldSpec> := [
    ("timestamp", ["timestamp"]),
    ("src_ip", ["src_ip"]),
    ("src_port", ["src_port"]),
    ("dst_ip", ["dst_ip"]),
    ("dst_port", ["dst_port"]),
    ("protocol", ["connection", "protocol"]),
    ("transport", ["connection", "transport"]),
    ("connection_type", ["connection", "type"])
  ]

  /** `parse_dionaea_logs`' per-event flattening. */
  function DionaeaRecord(log: Json): (r: Result<Row, FieldError>)
    ensures r.Success? ==> Keys(r.value) == DionaeaColumns
  {
    var r := FlattenFixed(log, DionaeaFields);
    assert r.Success? ==> Keys(r.value) == DionaeaColumns by {
      if r.Success? {
        FlattenFixedColumns(log, DionaeaFields);
        DionaeaNames();
      }
    }
    r
  }

  /** A Dionaea record has exactly eight columns, and exists exactly when every path resolves. */
  lemma DionaeaRecordShape(log: Json)
    ensures DionaeaRecord(log).Success? <==> Resolves(log, DionaeaFields)
    ensures DionaeaRecord(log).Success? ==> Keys(DionaeaRecord(log).value) == DionaeaColumns
  {
    FlattenFixedSpec(log, DionaeaFields);
    if DionaeaRecord(log).Success? {
      FlattenFixedColumns(log, DionaeaFields);
      DionaeaNames();
    }
  }

  const DionaeaColumns: seq<string> :=
    ["timestamp", "src_ip", "src_port", "dst_ip", "dst_port", "protocol", "transport", "connection_type"]

  lemma DionaeaNames()
    ensures Keys(DionaeaFields) == DionaeaColumns
  {
  }

  // ---------------------------------------------------------------- Tanner

  /** The Tanner `flat_log` literal (data/json_to_csv.py:75-86). */
  const TannerFields: seq<FieldSpec> := [
    ("timestamp", ["timestamp"]),
    ("method", ["method"]),
    ("path", ["path"]),
    ("status", ["status"]),
    ("uuid", ["uuid"]),
    ("src_ip", ["peer", "ip"]),
    ("src_port", ["peer", "port"]),
    ("response_version", ["response_msg", "version"]),
    ("response_sess_uuid", ["response_msg", "response", "message", "sess_uuid"]),
    ("header_user-agent", ["headers", "user-agent"])
  ]

  /** `parse_tanner_logs`' per-event flattening. */
  function TannerRecord(log: Json): (r: Result<Row, FieldError>)
    ensures r.Success? ==> Keys(r.value) == TannerColumns
  {
    var r := FlattenFixed(log, TannerFields);
    assert r.Success? ==> Keys(r.value) == TannerColumns by {
      if r.Success? {
        FlattenFixedColumns(log, TannerFields);
        TannerNames();
      }
    }
    r
  }

  /** A Tanner record has exactly ten columns, and exists exactly when every nested path resolves. */
  lemma TannerRecordShape(log: Json)
    ensures TannerRecord(log).Success? <==> Resolves(log, TannerFields)
    ensures TannerRecord(log).Success? ==> Keys(TannerRecord(log).value) == TannerColumns
  {
    FlattenFixedResolves(log, TannerFields);
    if TannerRecord(log).Success? {
      FlattenFixedColumns(log, TannerFields);
      TannerNames();
    }
  }

  /** A Tanner record takes its `src_ip` and `src_port` columns from the nested `peer` object. */
  lemma TannerPeer(log: Json)
    requires TannerRecord(log).Success?
    ensures Path(log, ["peer", "ip"]).Success? && Path(log, ["peer", "port"]).Success?
    ensures var row := TannerRecord(log).value;
            && |row| == |TannerFields|
            && row[5] == ("src_ip", Present(Path(log, ["peer", "ip"]).value))
            && row[6] == ("src_port", Present(Path(log, ["peer", "port"]).value))
  {
    FlattenFixedValues(log, TannerFields);
    assert TannerFields[5] == ("src_ip", ["peer", "ip"]);
    assert TannerFields[6] == ("src_port", ["peer", "port"]);
  }

  const TannerColumns: seq<string> := [
    "timestamp", "method", "path", "status", "uuid", "src_ip", "src_port",
    "response_version", "response_sess_uuid", "header_user-agent"
  ]

  lemma TannerNames()
    ensures Keys(TannerFields) == TannerColumns
  {
  }

  // ---------------------------------------------------------------- Honeytrap

  /** The required entries of the Honeytrap literal (data/json_to_csv.py:21-27). */
  const HoneyRequired: seq<FieldSpec> := [
    ("timestamp", ["timestamp"]),
    ("src_ip", ["src_ip"]),
    ("dst_port", ["dest_port"]),
    ("hostname", ["hostname"]),
    ("protocol", ["protocol"]),
    ("request_method", ["request_method"]),
    ("trapped", ["trapped"])
  ]

  /** The optional entries (output column, input key), read with `log.get(key, '')`. */
  const HoneyOptional: seq<(string, string)> := [
    ("user_agent", "user-agent"),
    ("user_agent_browser", "user-agent_browser"),
    ("user_agent_browser_version", "user-agent_browser_version"),
    ("user_agent_os", "user-agent_os"),
    ("user_agent_os_version", "user-agent_os_version")
  ]

  /** The twelve fixed columns of a Honeytrap record, in order. */
  const HoneyColumns: seq<string> := [
    "timestamp", "src_ip", "dst_port", "hostname", "protocol", "request_method", "trapped",
    "user_agent", "user_agent_browser", "user_agent_browser_version", "user_agent_os", "user_agent_os_version"
  ]

  const HeaderPrefix: string := "header_"

  /** The optional part of the literal: each user-agent key's value, or `''`. */
  function UserAgents(members: seq<(string, Json)>): (r: Row)
    ensures |r| == |HoneyOptional|
    ensures forall i :: 0 <= i < |HoneyOptional| ==>
              r[i] == (HoneyOptional[i].0, Present(GetOr(members, HoneyOptional[i].1, JStr(""))))
  {
    seq(|HoneyOptional|, i requires 0 <= i < |HoneyOptional| =>
      (HoneyOptional[i].0, Present(GetOr(members, HoneyOptional[i].1, JStr("")))))
  }

  /**
   * The (name, value) pairs the header comprehension visits, in item order: keys
   * starting with `header_`, with every `header_` removed from the name.
   */
  function HeaderPairs(items: seq<(string, Json)>): seq<(string, Json)> {
    if items == [] then []
    else
      var (k, v) := items[|items| - 1];
      HeaderPairs(items[..|items| - 1])
      + (if StartsWith(k, HeaderPrefix) then [(RemoveAll(k, HeaderPrefix), v)] else [])
  }

  /** `{k.replace('header_', ''): v for k, v in log.items() if k.startswith('header_')}`. */
  function HeaderDict(items: seq<(string, Json)>): (r: seq<(string, Json)>)
    ensures DistinctKeys(r)
    ensures forall n :: HasKey(r, n) <==> HasKey(HeaderPairs(items), n)
  {
    PutAllDistinct([], HeaderPairs(items));
    forall n ensures HasKey(PutAll([], HeaderPairs(items)), n) <==> HasKey(HeaderPairs(items), n) {
      PutAllKeys([], HeaderPairs(items), n);
    }
    PutAll([], HeaderPairs(items))
  }

  /** The assignments `flat_log[f'header_{name}'] = value` for every header, in order. */
  function Prefixed(headers: seq<(string, Json)>): (r: Row)
    ensures |r| == |headers|
    ensures forall i :: 0 <= i < |headers| ==> r[i] == (HeaderPrefix + headers[i].0, Present(headers[i].1))
  {
    seq(|headers|, i requires 0 <= i < |headers| => (HeaderPrefix + headers[i].0, Present(headers[i].1)))
  }

  /** `parse_honey_logs`' per-event flattening, before the `trapped` column is mapped. */
  function HoneyRecord(log: Json): (r: Result<Row, FieldError>)
    ensures r.Success? ==> log.JObj? && |HoneyRequired| <= |r.value|
    ensures !log.JObj? ==> r == Failure(NotSubscriptable("timestamp"))
  {
    match log
    case JObj(members) =>
      var fixed :- FlattenFixed(log, HoneyRequired);
      Success(PutAll(fixed + UserAgents(members), Prefixed(HeaderDict(Items(members)))))
    case _ => Failure(NotSubscriptable("timestamp"))
  }

  /**
   * Reference definition of a dynamic column: the value of the last item whose key
   * starts with `header_` and is rewritten to K.
   */
  function HeaderFor(items: seq<(string, Json)>, K: string): Option<Json> {
    if items == [] then None
    else
      var (k, v) := items[|items| - 1];
      if StartsWith(k, HeaderPrefix) && HeaderPrefix + RemoveAll(k, HeaderPrefix) == K then Some(v)
      else HeaderFor(items[..|items| - 1], K)
  }

  function AsCell(o: Option<Json>): Cell {
    match o
    case Some(v) => Present(v)
    case None => Missing
  }

  /** `flat_log` loop (data/json_to_csv.py:19-42) body for one event, as the source runs it. */
  method FlattenHoney(log: Json) returns (r: Result<Row, FieldError>)
    ensures r == HoneyRecord(log)
  {
    if !log.JObj? {
      return Failure(NotSubscriptable("timestamp"));
    }
    var fixed := FlattenFixed(log, HoneyRequired);
    if fixed.Failure? {
      return Failure(fixed.error);
    }
    ghost var base := fixed.value + UserAgents(log.members);
    var flatLog := fixed.value + UserAgents(log.members);
    var headers := HeaderDict(Items(log.members));
    for i := 0 to |headers|
      invariant flatLog == PutAll(base, Prefixed(headers[..i]))
    {
      assert Prefixed(headers[..i + 1])[..i] == Prefixed(headers[..i]);
      flatLog := Put(flatLog, HeaderPrefix + headers[i].0, Present(headers[i].1));
    }
    assert headers[..|headers|] == headers;
    return Success(flatLog);
  }

  // ------------------------------------------------ Honeytrap: what a record holds

  /** The header pairs, read by name, are the reference definition's headers. */
  lemma {:induction false} HeaderPairsLast(items: seq<(string, Json)>, n: string)
    ensures LastFor(HeaderPairs(items), n) == HeaderFor(items, HeaderPrefix + n)
  {
    if items != [] {
      var init := items[..|items| - 1];
      var (k, v) := items[|items| - 1];
      HeaderPairsLast(init, n);
      if StartsWith(k, HeaderPrefix) {
        var hp := HeaderPairs(items);
        assert hp[..|hp| - 1] == HeaderPairs(init);
        assert RemoveAll(k, HeaderPrefix) == n <==> HeaderPrefix + RemoveAll(k, HeaderPrefix) == HeaderPrefix + n by {
          if HeaderPrefix + RemoveAll(k, HeaderPrefix) == HeaderPrefix + n {
            assert (HeaderPrefix + RemoveAll(k, HeaderPrefix))[|HeaderPrefix|..] == RemoveAll(k, HeaderPrefix);
            assert (HeaderPrefix + n)[|HeaderPrefix|..] == n;
          }
        }
      } else {
        assert HeaderPairs(items) == HeaderPairs(init);
      }
    }
  }

  /** Only keys starting with `header_` have a dynamic column. */
  lemma {:induction false} HeaderForPrefix(items: seq<(string, Json)>, K: string)
    requires HeaderFor(items, K).Some?
    ensures StartsWith(K, HeaderPrefix)
  {
    var (k, v) := items[|items| - 1];
    if !(StartsWith(k, HeaderPrefix) && HeaderPrefix + RemoveAll(k, HeaderPrefix) == K) {
      HeaderForPrefix(items[..|items| - 1], K);
    } else {
      assert K[..|HeaderPrefix|] == HeaderPrefix;
    }
  }

  function OptPresent(o: Option<Json>): Option<Cell> {
    match o
    case Some(v) => Some(Present(v))
    case None => None
  }

  /** The assignment pairs, read by column, are the header dict read by name. */
  lemma {:induction false} PrefixedLast(headers: seq<(string, Json)>, n: string)
    ensures LastFor(Prefixed(headers), HeaderPrefix + n) == OptPresent(LastFor(headers, n))
  {
    if headers != [] {
      var init := headers[..|headers| - 1];
      var p := Prefixed(headers);
      assert p[..|p| - 1] == Prefixed(init);
      PrefixedLast(init, n);
      var k := headers[|headers| - 1].0;
      assert HeaderPrefix + k == HeaderPrefix + n ==> k == n by {
        if HeaderPrefix + k == HeaderPrefix + n {
          assert (HeaderPrefix + k)[|HeaderPrefix|..] == k;
          assert (HeaderPrefix + n)[|HeaderPrefix|..] == n;
        }
      }
    }
  }

  /** No assignment pair has a column outside the `header_` namespace. */
  lemma PrefixedNamespace(headers: seq<(string, Json)>, K: string)
    requires !StartsWith(K, HeaderPrefix)
    ensures !HasKey(Prefixed(headers), K)
  {
  }

  /** The required input keys of a Honeytrap event. */
  const HoneyKeys: seq<string> := ["timestamp", "src_ip", "dest_port", "hostname", "protocol", "request_method", "trapped"]

  lemma HoneyColumnsFacts()
    ensures forall i, j :: 0 <= i < j < |HoneyColumns| ==> HoneyColumns[i] != HoneyColumns[j]
    ensures forall i :: 0 <= i < |HoneyColumns| ==> !StartsWith(HoneyColumns[i], HeaderPrefix)
    ensures Keys(HoneyRequired) == HoneyColumns[..|HoneyRequired|]
    ensures forall i :: 0 <= i < |HoneyOptional| ==> HoneyOptional[i].0 == HoneyColumns[|HoneyRequired| + i]
  {
    forall i | 0 <= i < |HoneyColumns| ensures !StartsWith(HoneyColumns[i], HeaderPrefix) {
      var c := HoneyColumns[i];
      assert c[0] != 'h' || c[1] != 'e';
      if |c| >= |HeaderPrefix| {
        assert c[..|HeaderPrefix|][0] == c[0] && c[..|HeaderPrefix|][1] == c[1];
      }
    }
  }

  /** Each required entry of the Honeytrap literal is a single subscript. */
  lemma HoneyPaths(log: Json)
    ensures forall i :: 0 <= i < |HoneyKeys| ==> Path(log, HoneyRequired[i].1) == Field(log, HoneyKeys[i])
  {
    forall i | 0 <= i < |HoneyKeys| ensures Path(log, HoneyRequired[i].1) == Field(log, HoneyKeys[i]) {
      assert HoneyRequired[i].1 == [HoneyKeys[i]];
      SingleKeyPath(log, HoneyKeys[i]);
    }
  }

  /** A Honeytrap record exists exactly when the fixed part of the literal succeeds. */
  lemma HoneyRecordFixed(log: Json)
    ensures HoneyRecord(log).Success? <==> log.JObj? && FlattenFixed(log, HoneyRequired).Success?
    ensures log.JObj? && HoneyRecord(log).Failure? ==> HoneyRecord(log).error == FlattenFixed(log, HoneyRequired).error
    ensures !log.JObj? ==> HoneyRecord(log) == Failure(NotSubscriptable("timestamp"))
  {
  }

  /** The fixed part of the literal resolves exactly when every required key is present. */
  lemma HoneyRequiredResolves(members: seq<(string, Json)>)
    ensures Resolves(JObj(members), HoneyRequired) <==> forall i :: 0 <= i < |HoneyKeys| ==> HasKey(members, HoneyKeys[i])
  {
    HoneyPaths(JObj(members));
  }

  /**
   * A Honeytrap event flattens exactly when it is an object holding every required
   * key; a value that is not an object fails at the first subscript.
   */
  lemma HoneyRecordSucceeds(log: Json)
    ensures HoneyRecord(log).Success? <==>
              log.JObj? && forall i :: 0 <= i < |HoneyKeys| ==> HasKey(log.members, HoneyKeys[i])
    ensures !log.JObj? ==> HoneyRecord(log) == Failure(NotSubscriptable("timestamp"))
  {
    HoneyRecordFixed(log);
    if log.JObj? {
      FlattenFixedSpec(log, HoneyRequired);
      HoneyRequiredResolves(log.members);
    }
  }

  /** An event missing required keys fails on the first of them in literal order. */
  lemma HoneyFirstMissing(members: seq<(string, Json)>)
    requires HoneyRecord(JObj(members)).Failure?
    ensures exists i :: 0 <= i < |HoneyKeys| && HoneyRecord(JObj(members)).error == KeyAbsent(HoneyKeys[i])
                        && !HasKey(members, HoneyKeys[i])
                        && forall j :: 0 <= j < i ==> HasKey(members, HoneyKeys[j])
  {
    var log := JObj(members);
    HoneyRecordFixed(log);
    FlattenFixedSpec(log, HoneyRequired);
    HoneyPaths(log);
    var e := FlattenFixed(log, HoneyRequired).error;
    var i :| FailsFirstAt(log, HoneyRequired, i, e);
    assert Field(log, HoneyKeys[i]) == Failure(e);
    assert !HasKey(members, HoneyKeys[i]) && e == KeyAbsent(HoneyKeys[i]);
    forall j | 0 <= j < i ensures HasKey(members, HoneyKeys[j]) {
      assert Field(log, HoneyKeys[j]).Success?;
    }
  }

  /** The fixed part of a Honeytrap record: twelve distinct columns, none in the `header_` namespace. */
  lemma HoneyBaseKeys(members: seq<(string, Json)>)
    requires FlattenFixed(JObj(members), HoneyRequired).Success?
    ensures var base := FlattenFixed(JObj(members), HoneyRequired).value + UserAgents(members);
            && Keys(base) == HoneyColumns
            && DistinctKeys(base)
            && forall K :: StartsWith(K, HeaderPrefix) ==> !HasKey(base, K)
  {
    var fixed := FlattenFixed(JObj(members), HoneyRequired).value;
    var base := fixed + UserAgents(members);
    FlattenFixedColumns(JObj(members), HoneyRequired);
    HoneyColumnsFacts();
    assert Keys(base) == HoneyColumns by {
      forall i | 0 <= i < |base| ensures Keys(base)[i] == HoneyColumns[i] {
        if i < |fixed| { assert Keys(fixed)[i] == base[i].0; }
      }
    }
    forall K | StartsWith(K, HeaderPrefix) ensures !HasKey(base, K) {
      forall i | 0 <= i < |base| ensures base[i].0 != K {
        assert base[i].0 == HoneyColumns[i];
      }
    }
  }

  /**
   * Assigning only `header_` columns to a dict without any: the dict's entries stay
   * first and unchanged, keys stay distinct, and every added column is a `header_` one.
   */
  lemma PutAllSeparate(base: Row, p: Row)
    requires DistinctKeys(base)
    requires forall i :: 0 <= i < |base| ==> !StartsWith(base[i].0, HeaderPrefix)
    requires forall i :: 0 <= i < |p| ==> StartsWith(p[i].0, HeaderPrefix)
    ensures var row := PutAll(base, p);
            && |base| <= |row|
            && row[..|base|] == base
            && DistinctKeys(row)
            && forall i :: |base| <= i < |row| ==> StartsWith(row[i].0, HeaderPrefix)
  {
    var row := PutAll(base, p);
    forall i | 0 <= i < |base| ensures row[i] == base[i] {
      assert !HasKey(p, base[i].0);
      PutAllKeeps(base, p, i);
    }
    assert row[..|base|] == base;
    PutAllDistinct(base, p);
    forall i | |base| <= i < |row| ensures StartsWith(row[i].0, HeaderPrefix) {
      var k := row[i].0;
      PutAllLookup(base, p, k);
      assert HasKey(row, k);
      assert HasKey(p, k);
      var m :| 0 <= m < |p| && p[m].0 == k;
    }
  }

  /** Every assignment of the header loop targets a `header_` column. */
  lemma PrefixedKeys(headers: seq<(string, Json)>)
    ensures forall i :: 0 <= i < |Prefixed(headers)| ==> StartsWith(Prefixed(headers)[i].0, HeaderPrefix)
  {
    var p := Prefixed(headers);
    forall i | 0 <= i < |p| ensures StartsWith(p[i].0, HeaderPrefix) {
      assert p[i].0 == HeaderPrefix + headers[i].0;
      assert p[i].0[..|HeaderPrefix|] == HeaderPrefix;
    }
  }

  /** A successful Honeytrap record is the fixed part followed by the header loop's assignments. */
  lemma HoneyRecordParts(members: seq<(string, Json)>)
    requires HoneyRecord(JObj(members)).Success?
    ensures FlattenFixed(JObj(members), HoneyRequired).Success?
    ensures HoneyRecord(JObj(members)).value
            == PutAll(FlattenFixed(JObj(members), HoneyRequired).value + UserAgents(members), Prefixed(HeaderDict(Items(members))))
  {
  }

  /**
   * What a Honeytrap record holds: the twelve fixed columns first, in literal order
   * and never overwritten, then only `header_` columns; no column appears twice.
   */
  lemma HoneyRecordColumns(members: seq<(string, Json)>)
    requires HoneyRecord(JObj(members)).Success?
    ensures var row := HoneyRecord(JObj(members)).value;
            && |HoneyColumns| <= |row|
            && row[..|HoneyColumns|] == FlattenFixed(JObj(members), HoneyRequired).value + UserAgents(members)
            && Keys(row[..|HoneyColumns|]) == HoneyColumns
            && DistinctKeys(row)
            && forall i :: |HoneyColumns| <= i < |row| ==> StartsWith(row[i].0, HeaderPrefix)
  {
    HoneyRecordParts(members);
    var base := FlattenFixed(JObj(members), HoneyRequired).value + UserAgents(members);
    var p := Prefixed(HeaderDict(Items(members)));
    HoneyBaseKeys(members);
    PrefixedKeys(HeaderDict(Items(members)));
    forall i | 0 <= i < |base| ensures !StartsWith(base[i].0, HeaderPrefix) {
      assert HasKey(base, base[i].0);
    }
    PutAllSeparate(base, p);
  }

  /**
   * Reading a column of a Honeytrap record: a `header_` column holds the value of the
   * last input header rewritten to it (missing if there is none); any other column
   * reads from the fixed part.
   */
  lemma HoneyRecordLookup(members: seq<(string, Json)>, K: string)
    requires HoneyRecord(JObj(members)).Success?
    ensures Lookup(HoneyRecord(JObj(members)).value, K)
            == if StartsWith(K, HeaderPrefix) then OptPresent(HeaderFor(Items(members), K))
               else Lookup(FlattenFixed(JObj(members), HoneyRequired).value + UserAgents(members), K)
  {
    HoneyRecordParts(members);
    HoneyBaseKeys(members);
    HeaderAssignLookup(FlattenFixed(JObj(members), HoneyRequired).value + UserAgents(members), Items(members), K);
  }

  /**
   * After the header loop on a dict without `header_` columns, a `header_` column
   * holds the last item rewritten to it, and any other column reads as before.
   */
  lemma HeaderAssignLookup(base: Row, items: seq<(string, Json)>, K: string)
    requires forall K' :: StartsWith(K', HeaderPrefix) ==> !HasKey(base, K')
    ensures Lookup(PutAll(base, Prefixed(HeaderDict(items))), K)
            == if StartsWith(K, HeaderPrefix) then OptPresent(HeaderFor(items, K)) else Lookup(base, K)
  {
    var headers := HeaderDict(items);
    PutAllLookup(base, Prefixed(headers), K);
    if StartsWith(K, HeaderPrefix) {
      var n := K[|HeaderPrefix|..];
      assert K == HeaderPrefix + n;
      PrefixedLast(headers, n);
      HeaderDictLast(items, n);
    } else {
      PrefixedNamespace(headers, K);
    }
  }

  /** The header dict maps a name to the last `header_` item rewritten to it. */
  lemma HeaderDictLast(items: seq<(string, Json)>, n: string)
    ensures LastFor(HeaderDict(items), n) == HeaderFor(items, HeaderPrefix + n)
  {
    PutAllDistinct([], HeaderPairs(items));
    LastForDistinct(HeaderDict(items), n);
    PutAllLookup([], HeaderPairs(items), n);
    HeaderPairsLast(items, n);
  }

  /** Each column of the fixed part sits at its literal position, holding the value its key path reaches. */
  lemma HoneyFixedColumn(members: seq<(string, Json)>, i: nat)
    requires HoneyRecord(JObj(members)).Success?
    requires i < |HoneyRequired|
    ensures Path(JObj(members), HoneyRequired[i].1).Success?
    ensures var row := HoneyRecord(JObj(members)).value;
            && |HoneyColumns| <= |row|
            && row[i] == (HoneyRequired[i].0, Present(Path(JObj(members), HoneyRequired[i].1).value))
  {
    var log := JObj(members);
    var row := HoneyRecord(log).value;
    HoneyRecordColumns(members);
    FlattenFixedValues(log, HoneyRequired);
    var fixed := FlattenFixed(log, HoneyRequired).value;
    assert row[i] == row[..|HoneyColumns|][i] == (fixed + UserAgents(members))[i];
  }

  /** The renamed column: `dst_port` holds the input's `dest_port` value. */
  lemma HoneyDstPort(members: seq<(string, Json)>)
    requires HoneyRecord(JObj(members)).Success?
    ensures var row := HoneyRecord(JObj(members)).value;
            && |HoneyColumns| <= |row|
            && row[2].0 == "dst_port" && Some(row[2].1) == OptPresent(LastFor(members, "dest_port"))
  {
    HoneyFixedColumn(members, 2);
    assert HoneyRequired[2] == ("dst_port", ["dest_port"]);
    SingleKeyPath(JObj(members), "dest_port");
  }

  /** Each `user_agent*` column holds its `user-agent*` value, or `''` when the key is absent. */
  lemma HoneyUserAgents(members: seq<(string, Json)>)
    requires HoneyRecord(JObj(members)).Success?
    ensures var row := HoneyRecord(JObj(members)).value;
            && |HoneyColumns| <= |row|
            && forall i :: 0 <= i < |HoneyOptional| ==>
                 row[|HoneyRequired| + i] == (HoneyOptional[i].0, Present(GetOr(members, HoneyOptional[i].1, JStr(""))))
  {
    var row := HoneyRecord(JObj(members)).value;
    HoneyRecordColumns(members);
    var fixed := FlattenFixed(JObj(members), HoneyRequired).value;
    FlattenFixedColumns(JObj(members), HoneyRequired);
    assert |fixed| == |HoneyRequired|;
    forall i | 0 <= i < |HoneyOptional|
      ensures row[|HoneyRequired| + i] == (HoneyOptional[i].0, Present(GetOr(members, HoneyOptional[i].1, JStr(""))))
    {
      assert row[|HoneyRequired| + i] == row[..|HoneyColumns|][|HoneyRequired| + i];
    }
  }

  /** A key that is `header_` followed by a name without `header_` keeps its name. */
  lemma HeaderKeyUnchanged(n: string)
    requires !Occurs(n, HeaderPrefix)
    ensures StartsWith(HeaderPrefix + n, HeaderPrefix)
    ensures HeaderPrefix + RemoveAll(HeaderPrefix + n, HeaderPrefix) == HeaderPrefix + n
  {
    RemoveAllLeading(HeaderPrefix, n);
  }

  /**
   * Every `header_` is removed, so `header_x` and `header_header_x` both become
   * column `header_x`, and the later item wins.
   */
  lemma HeaderCollision(a: Json, b: Json)
    ensures HeaderFor([("header_x", a), ("header_header_x", b)], "header_x") == Some(b)
    ensures HeaderFor([("header_header_x", b), ("header_x", a)], "header_x") == Some(a)
  {
    HeaderXKeys();
    var items := [("header_x", a), ("header_header_x", b)];
    assert items[..1] == [("header_x", a)];
    var swapped := [("header_header_x", b), ("header_x", a)];
    assert HeaderFor(swapped, "header_x") == Some(a);
  }

  /** Both `header_x` and `header_header_x` are header keys whose name is `x`. */
  lemma HeaderXKeys()
    ensures StartsWith("header_x", HeaderPrefix) && HeaderPrefix + RemoveAll("header_x", HeaderPrefix) == "header_x"
    ensures StartsWith("header_header_x", HeaderPrefix)
    ensures HeaderPrefix + RemoveAll("header_header_x", HeaderPrefix) == "header_x"
  {
    assert "header_x" == HeaderPrefix + "x";
    assert "header_header_x" == HeaderPrefix + "header_x";
    assert !Occurs("x", HeaderPrefix);
    HeaderKeyUnchanged("x");
    RemoveAllLeading(HeaderPrefix, "header_x");
  }

  // ------------------------------------------------ Honeytrap: the trapped column

  lemma HeaderNotTrapped(K: string)
    requires StartsWith(K, HeaderPrefix)
    ensures K != "trapped"
  {
    assert K[..|HeaderPrefix|][0] == K[0] == 'h';
  }

  function BoolText(b: bool): string {
    if b then "true" else "false"
  }

  /**
   * `df['trapped'].map({'true': True, 'false': False})` on one cell: only the two
   * strings map to booleans, every other value (a JSON boolean included) to NaN.
   */
  function CoerceTrapped(c: Cell): (r: Cell)
    ensures r.Present? ==> r.v.JBool? && c == Present(JStr(BoolText(r.v.b)))
    ensures r.Missing? ==> c != Present(JStr("true")) && c != Present(JStr("false"))
  {
    if c == Present(JStr("true")) then Present(JBool(true))
    else if c == Present(JStr("false")) then Present(JBool(false))
    else Missing
  }

  /** The two strings round-trip to the boolean they spell. */
  lemma TrappedRoundTrip(b: bool)
    ensures CoerceTrapped(Present(JStr(BoolText(b)))) == Present(JBool(b))
  {
  }

  /** Other values become missing rather than an error. */
  lemma TrappedOtherValues()
    ensures CoerceTrapped(Present(JStr("maybe"))) == Missing
    ensures CoerceTrapped(Present(JBool(true))) == Missing
    ensures CoerceTrapped(Present(JStr("True"))) == Missing
    ensures CoerceTrapped(Missing) == Missing
  {
  }
}
