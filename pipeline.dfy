/**
 * `main`: parse the three sensor logs, gather their frames in the order
 * honeytrap, dionaea, tanner, build the address table and label each count.
 * The CSV writes are left to the caller.
 */
module Pipeline {
  import opened Wrappers
  import opened Dicts
  import opened Json
  import opened Text
  import opened Records
  import opened Frames
  import opened LogParser
  import opened Locations
  import opened Scale

  /** The `honeypot_dfs` dict of `main`, in its insertion order. */
  function HoneypotDfs(honey: Frame, dionaea: Frame, tanner: Frame): seq<(string, Frame)> {
    [("honeytrap", honey), ("dionaea", dionaea), ("tanner", tanner)]
  }

  /** What makes `main` raise: a log that does not parse, or an address `unique()` cannot hash. */
  datatype MainError = BadLog(log: ParseError) | BadAddress(address: LocationError)

  /**
   * What `main` returns: the address table with its `echelle` column, or the error
   * of the first log that fails, or else of `create_ip_location_df`.
   */
  function LocationTable(honeyLog: string, dionaeaLog: string, tannerLog: string,
                         decode: string -> Option<Json>, lookup: Locator): (r: Result<seq<ScaledRow>, MainError>)
    ensures r.Success? ==> forall k :: 0 <= k < |r.value| ==>
              && r.value[k].echelle.Some? && InBucket(r.value[k].row.appearances, r.value[k].echelle.value)
              && lookup(r.value[k].row.ip) == Some(r.value[k].row.location)
  {
    var honey :- HoneyLogs(honeyLog, decode).MapFailure(e => BadLog(e));
    var dionaea :- DionaeaLogs(dionaeaLog, decode).MapFailure(e => BadLog(e));
    var tanner :- TannerLogs(tannerLog, decode).MapFailure(e => BadLog(e));
    IpLocationsSucceeds(HoneypotDfs(honey, dionaea, tanner), lookup);
    var rows :- IpLocations(HoneypotDfs(honey, dionaea, tanner), lookup).MapFailure(e => BadAddress(e));
    Success(WithEchelle(rows))
  }

  /** A log whose every record has a `src_ip` key yields a frame with a `src_ip` column. */
  lemma SrcIpColumn(logs: string, decode: string -> Option<Json>, flatten: Json -> Result<Row, FieldError>)
    requires ParseRows(logs, decode, flatten).Success?
    requires forall e :: flatten(e).Success? ==> HasKey(flatten(e).value, "src_ip")
    ensures "src_ip" in Columns(ParseRows(logs, decode, flatten).value)
  {
    ParseRowsSpec(logs, decode, flatten);
    var rows := ParseRows(logs, decode, flatten).value;
    assert HasKey(rows[0], "src_ip");
  }

  /** Every Honeytrap record has a `src_ip` column. */
  lemma HoneySrcIp(e: Json)
    ensures HoneyRecord(e).Success? ==> HasKey(HoneyRecord(e).value, "src_ip")
  {
    if HoneyRecord(e).Success? {
      HoneyRecordFixed(e);
      HoneyFixedColumn(e.members, 1);
      assert HoneyRequired[1].0 == "src_ip";
    }
  }

  /** Every Dionaea record has a `src_ip` column. */
  lemma DionaeaSrcIp(e: Json)
    ensures DionaeaRecord(e).Success? ==> HasKey(DionaeaRecord(e).value, "src_ip")
  {
    DionaeaRecordShape(e);
    if DionaeaRecord(e).Success? {
      assert Keys(DionaeaRecord(e).value)[1] == "src_ip";
    }
  }

  /** Every Tanner record has a `src_ip` column. */
  lemma TannerSrcIp(e: Json)
    ensures TannerRecord(e).Success? ==> HasKey(TannerRecord(e).value, "src_ip")
  {
    if TannerRecord(e).Success? {
      TannerPeer(e);
      assert TannerRecord(e).value[5].0 == "src_ip";
    }
  }

  /** `df['src_ip']` exists in each of the three parsed frames, so `create_ip_location_df` can read it. */
  lemma FramesHaveSrcIp(honeyLog: string, dionaeaLog: string, tannerLog: string, decode: string -> Option<Json>)
    requires HoneyLogs(honeyLog, decode).Success?
    requires DionaeaLogs(dionaeaLog, decode).Success?
    requires TannerLogs(tannerLog, decode).Success?
    ensures "src_ip" in HoneyLogs(honeyLog, decode).value.columns
    ensures "src_ip" in DionaeaLogs(dionaeaLog, decode).value.columns
    ensures "src_ip" in TannerLogs(tannerLog, decode).value.columns
  {
    forall e ensures HoneyRecord(e).Success? ==> HasKey(HoneyRecord(e).value, "src_ip") { HoneySrcIp(e); }
    forall e ensures DionaeaRecord(e).Success? ==> HasKey(DionaeaRecord(e).value, "src_ip") { DionaeaSrcIp(e); }
    forall e ensures TannerRecord(e).Success? ==> HasKey(TannerRecord(e).value, "src_ip") { TannerSrcIp(e); }
    SrcIpColumn(honeyLog, decode, HoneyRecord);
    SrcIpColumn(dionaeaLog, decode, DionaeaRecord);
    SrcIpColumn(tannerLog, decode, TannerRecord);
  }

  /** Three frames with a `src_ip` column make a dict whose every frame has one. */
  lemma DfsHaveSrcIp(honey: Frame, dionaea: Frame, tanner: Frame)
    requires "src_ip" in honey.columns && "src_ip" in dionaea.columns && "src_ip" in tanner.columns
    ensures var dfs := HoneypotDfs(honey, dionaea, tanner);
            forall h :: 0 <= h < |dfs| ==> "src_ip" in dfs[h].1.columns
  {
  }

  /** `main`, with the CSV writes left out. */
  method BuildLocationTable(honeyLog: string, dionaeaLog: string, tannerLog: string,
                            decode: string -> Option<Json>, lookup: Locator)
    returns (r: Result<seq<ScaledRow>, MainError>)
    requires FitsRow(lookup)
    ensures r == LocationTable(honeyLog, dionaeaLog, tannerLog, decode, lookup)
  {
    var honey := ParseHoneyLogs(honeyLog, decode);
    var dfHoneytrap :- honey.MapFailure(e => BadLog(e));
    var dionaea := ParseDionaeaLogs(dionaeaLog, decode);
    var dfDionaea :- dionaea.MapFailure(e => BadLog(e));
    var tanner := ParseTannerLogs(tannerLog, decode);
    var dfTanner :- tanner.MapFailure(e => BadLog(e));
    FramesHaveSrcIp(honeyLog, dionaeaLog, tannerLog, decode);
    var honeypotDfs := HoneypotDfs(dfHoneytrap, dfDionaea, dfTanner);
    DfsHaveSrcIp(dfHoneytrap, dfDionaea, dfTanner);
    var ipLoc := CreateIpLocation(honeypotDfs, lookup);
    var ipLocDf :- ipLoc.MapFailure(e => BadAddress(e));
    r := Success(WithEchelle(ipLocDf));
  }

  /**
   * The table lists the Honeytrap rows, then the Dionaea rows, then the Tanner rows,
   * each row labelled with the bucket of its count.
   */
  lemma LocationTableGroups(honeyLog: string, dionaeaLog: string, tannerLog: string,
                            decode: string -> Option<Json>, lookup: Locator)
    requires LocationTable(honeyLog, dionaeaLog, tannerLog, decode, lookup).Success?
    ensures var honey := HoneyLogs(honeyLog, decode).value;
            var dionaea := DionaeaLogs(dionaeaLog, decode).value;
            var tanner := TannerLogs(tannerLog, decode).value;
            var rows := IpLocationRows([("honeytrap", honey)], lookup)
                        + IpLocationRows([("dionaea", dionaea)], lookup)
                        + IpLocationRows([("tanner", tanner)], lookup);
            var table := LocationTable(honeyLog, dionaeaLog, tannerLog, decode, lookup).value;
            && |table| == |rows|
            && forall i :: 0 <= i < |table| ==> table[i].row == rows[i] && InBucket(rows[i].appearances, table[i].echelle.value)
  {
    var honey := HoneyLogs(honeyLog, decode).value;
    var dionaea := DionaeaLogs(dionaeaLog, decode).value;
    var tanner := TannerLogs(tannerLog, decode).value;
    IpLocationsSucceeds(HoneypotDfs(honey, dionaea, tanner), lookup);
    DictOrder(honey, dionaea, tanner, lookup);
  }

  /** The rows of the three honeypots follow the dict's insertion order. */
  lemma DictOrder(honey: Frame, dionaea: Frame, tanner: Frame, lookup: Locator)
    ensures IpLocationRows(HoneypotDfs(honey, dionaea, tanner), lookup)
            == IpLocationRows([("honeytrap", honey)], lookup)
               + IpLocationRows([("dionaea", dionaea)], lookup)
               + IpLocationRows([("tanner", tanner)], lookup)
  {
    var h, d, t := [("honeytrap", honey)], [("dionaea", dionaea)], [("tanner", tanner)];
    assert HoneypotDfs(honey, dionaea, tanner) == h + d + t;
    IpLocationRowsAppend(h + d, t, lookup);
    IpLocationRowsAppend(h, d, lookup);
  }

  /**
   * `main` fails exactly when some log fails to parse or, all three parsed, an address
   * cannot be hashed; the first failing log in honeytrap, dionaea, tanner order is reported.
   */
  lemma LocationTableFails(honeyLog: string, dionaeaLog: string, tannerLog: string,
                           decode: string -> Option<Json>, lookup: Locator)
    ensures LocationTable(honeyLog, dionaeaLog, tannerLog, decode, lookup).Failure? <==>
              || HoneyLogs(honeyLog, decode).Failure?
              || DionaeaLogs(dionaeaLog, decode).Failure?
              || TannerLogs(tannerLog, decode).Failure?
              || IpLocations(HoneypotDfs(HoneyLogs(honeyLog, decode).value, DionaeaLogs(dionaeaLog, decode).value,
                                         TannerLogs(tannerLog, decode).value), lookup).Failure?
    ensures HoneyLogs(honeyLog, decode).Failure? ==>
              LocationTable(honeyLog, dionaeaLog, tannerLog, decode, lookup).error == BadLog(HoneyLogs(honeyLog, decode).error)
    ensures HoneyLogs(honeyLog, decode).Success? && DionaeaLogs(dionaeaLog, decode).Failure? ==>
              LocationTable(honeyLog, dionaeaLog, tannerLog, decode, lookup).error == BadLog(DionaeaLogs(dionaeaLog, decode).error)
    ensures HoneyLogs(honeyLog, decode).Success? && DionaeaLogs(dionaeaLog, decode).Success? && TannerLogs(tannerLog, decode).Failure? ==>
              LocationTable(honeyLog, dionaeaLog, tannerLog, decode, lookup).error == BadLog(TannerLogs(tannerLog, decode).error)
  {
  }

  /**
   * With all three logs parsed, `main` fails exactly when some frame holds a list or
   * dict address, and then reports the first such honeypot in dict order.
   */
  lemma UnhashableAddressFails(honeyLog: string, dionaeaLog: string, tannerLog: string,
                               decode: string -> Option<Json>, lookup: Locator)
    requires HoneyLogs(honeyLog, decode).Success?
    requires DionaeaLogs(dionaeaLog, decode).Success?
    requires TannerLogs(tannerLog, decode).Success?
    ensures var dfs := HoneypotDfs(HoneyLogs(honeyLog, decode).value, DionaeaLogs(dionaeaLog, decode).value,
                                   TannerLogs(tannerLog, decode).value);
            && (LocationTable(honeyLog, dionaeaLog, tannerLog, decode, lookup).Failure? <==>
                  exists h :: 0 <= h < 3 && !ColumnHashable(dfs[h]))
            && (LocationTable(honeyLog, dionaeaLog, tannerLog, decode, lookup).Failure? ==>
                  exists h :: 0 <= h < 3 && !ColumnHashable(dfs[h])
                              && LocationTable(honeyLog, dionaeaLog, tannerLog, decode, lookup).error == BadAddress(UnhashableAddress(dfs[h].0))
                              && forall g :: 0 <= g < h ==> ColumnHashable(dfs[g]))
  {
    var dfs := HoneypotDfs(HoneyLogs(honeyLog, decode).value, DionaeaLogs(dionaeaLog, decode).value,
                           TannerLogs(tannerLog, decode).value);
    IpLocationsSucceeds(dfs, lookup);
    if IpLocations(dfs, lookup).Failure? {
      IpLocationsFirstUnhashable(dfs, lookup);
    }
  }

  /**
   * Two rows from the same known address give one table row, counting 2, in the
   * first bucket.
   */
  lemma RepeatedAddress(df: Frame, ip: Cell, loc: seq<string>, lookup: Locator)
    requires Column(df, "src_ip") == [ip, ip] && !IsNA(ip)
    requires lookup(ip) == Some(loc)
    ensures IpLocationRows([("honeytrap", df)], lookup) == [LocRow("honeytrap", ip, 2, loc)]
    ensures WithEchelle(IpLocationRows([("honeytrap", df)], lookup))[0].echelle == Some(1)
  {
    var col := Column(df, "src_ip");
    EqualPair(ip, ip);
    assert HoneypotRows("honeytrap", col, [ip], lookup) == [LocRow("honeytrap", ip, 2, loc)] by {
      assert [ip][..0] == [];
    }
    assert [("honeytrap", df)][..0] == [];
  }
}
