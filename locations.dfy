/**
 * `create_ip_location_df`: for every honeypot, in dict order, and every distinct
 * source address of its frame, in first-seen order, count the address's rows and
 * ask the location lookup; a row is emitted only when the lookup answers.
 */
module Locations {
  import opened Wrappers
  import opened Dicts
  import opened Json
  import opened Records
  import opened Frames

  /** One row of the `ip_loc` table: Honeypot, IP, Appearances, then the looked-up location values. */
  datatype LocRow = LocRow(honeypot: string, ip: Cell, appearances: nat, location: seq<string>)

  /** The address lookup: the location values for an address, or nothing when the request fails. */
  type Locator = Cell -> Option<seq<string>>

  /** NaN and None: pandas' `==` never finds them equal to anything. */
  predicate IsNA(c: Cell) {
    c == Missing || c == Present(JNull)
  }

  // --------------------------------------------------------- Python equality

  /**
   * The value Python's `==` and `hash` see in an address: `True` is `1` and `False`
   * is `0`; every other cell is itself.
   */
  function PyKey(c: Cell): Cell {
    match c
    case Present(JBool(b)) => Present(JNum(if b then 1 else 0))
    case _ => c
  }

  /** A cell `unique()` can hash: a list or a dict raises TypeError. */
  predicate Hashable(c: Cell) {
    !(c.Present? && (c.v.JArr? || c.v.JObj?))
  }

  /** The Python keys of a column, position by position. */
  function Keyed(s: seq<Cell>): (k: seq<Cell>)
    ensures |k| == |s|
    ensures forall i :: 0 <= i < |s| ==> k[i] == PyKey(s[i])
  {
    seq(|s|, i requires 0 <= i < |s| => PyKey(s[i]))
  }

  lemma KeyedSnoc(s: seq<Cell>, x: Cell)
    ensures Keyed(s + [x]) == Keyed(s) + [PyKey(x)]
  {
  }

  // ------------------------------------------- distinct values, plain equality

  /** Each value of s once, in first-seen order: the reference that `unique()` follows on keys. */
  function DistinctValues(s: seq<Cell>): (u: seq<Cell>)
    ensures Distinct(u)
    ensures forall x :: x in u <==> x in s
  {
    if s == [] then []
    else
      var init := s[..|s| - 1];
      var u := DistinctValues(init);
      assert forall x :: x in s <==> x in init || x == s[|s| - 1] by {
        assert s == init + [s[|s| - 1]];
      }
      if s[|s| - 1] in u then u else u + [s[|s| - 1]]
  }

  /** The number of positions of s holding x. */
  function Count(s: seq<Cell>, x: Cell): (c: nat)
    ensures c <= |s|
  {
    if s == [] then 0
    else Count(s[..|s| - 1], x) + (if s[|s| - 1] == x then 1 else 0)
  }

  /** The cells of s that are not NaN or None. */
  function CountKnown(s: seq<Cell>): nat {
    if s == [] then 0
    else CountKnown(s[..|s| - 1]) + (if IsNA(s[|s| - 1]) then 0 else 1)
  }

  /** The position of the first occurrence of x in s. */
  function FirstIndex(s: seq<Cell>, x: Cell): (k: nat)
    requires x in s
    ensures k < |s| && s[k] == x && x !in s[..k]
  {
    if s[0] == x then 0
    else
      var k := 1 + FirstIndex(s[1..], x);
      assert s[..k] == [s[0]] + s[1..][..k - 1];
      k
  }

  /** The values of DistinctValues come in the order of their first occurrence. */
  lemma {:induction false} DistinctFirstSeen(s: seq<Cell>, i: nat, j: nat)
    requires i < j < |DistinctValues(s)|
    ensures FirstIndex(s, DistinctValues(s)[i]) < FirstIndex(s, DistinctValues(s)[j])
  {
    var init := s[..|s| - 1];
    var u := DistinctValues(init);
    var x, y := DistinctValues(s)[i], DistinctValues(s)[j];
    if j < |u| {
      DistinctFirstSeen(init, i, j);
      FirstIndexPrefix(s, init, x);
      FirstIndexPrefix(s, init, y);
    } else {
      FirstIndexPrefix(s, init, x);
      assert y == s[|s| - 1] && y !in init;
      assert s[..|s| - 1] == init;
    }
  }

  /** An element of a prefix has its first occurrence there. */
  lemma FirstIndexPrefix(s: seq<Cell>, p: seq<Cell>, x: Cell)
    requires p <= s && x in p
    ensures FirstIndex(s, x) == FirstIndex(p, x)
  {
    var k, kp := FirstIndex(s, x), FirstIndex(p, x);
    assert p[..kp] == s[..kp];
    assert s[kp] == x;
  }

  /** A value that occurs is counted at least once. */
  lemma {:induction false} CountPositive(s: seq<Cell>, x: Cell)
    requires x in s
    ensures Count(s, x) >= 1
  {
    if s[|s| - 1] != x {
      assert s == s[..|s| - 1] + [s[|s| - 1]];
      CountPositive(s[..|s| - 1], x);
    }
  }

  /** A value listed once among distinct values is counted once. */
  lemma {:induction false} CountDistinct(u: seq<Cell>, y: Cell)
    requires Distinct(u)
    ensures Count(u, y) == if y in u then 1 else 0
  {
    if u != [] {
      var init := u[..|u| - 1];
      CountDistinct(init, y);
      assert u == init + [u[|u| - 1]];
      if u[|u| - 1] == y { assert y !in init; }
    }
  }

  /** A value absent from a column has no count there. */
  lemma {:induction false} CountAbsent(s: seq<Cell>, y: Cell)
    requires y !in s
    ensures Count(s, y) == 0
  {
    if s != [] {
      assert s == s[..|s| - 1] + [s[|s| - 1]];
      CountAbsent(s[..|s| - 1], y);
    }
  }

  // ------------------------------------------------------ unique() and counts

  /**
   * `Series.unique()`: one cell per class of Python-equal values, the first one
   * seen, in first-seen order.
   */
  function Unique(s: seq<Cell>): seq<Cell> {
    if s == [] then []
    else
      var u := Unique(s[..|s| - 1]);
      if PyKey(s[|s| - 1]) in Keyed(u) then u else u + [s[|s| - 1]]
  }

  /** The keys of what `unique()` keeps are the distinct keys of the column, and it keeps only cells of the column. */
  lemma {:induction false} UniqueKeys(s: seq<Cell>)
    ensures Keyed(Unique(s)) == DistinctValues(Keyed(s))
    ensures forall x :: x in Unique(s) ==> x in s
  {
    if s != [] {
      var init := s[..|s| - 1];
      var x := s[|s| - 1];
      var u := Unique(init);
      UniqueKeys(init);
      assert s == init + [x];
      KeyedSnoc(init, x);
      assert Keyed(s)[..|s| - 1] == Keyed(init);
      KeyedSnoc(u, x);
    }
  }

  /** Two cells `unique()` keeps are never Python-equal, and every cell of s has an equal one kept. */
  lemma UniqueClasses(s: seq<Cell>)
    ensures var u := Unique(s);
            && (forall i, j :: 0 <= i < j < |u| ==> PyKey(u[i]) != PyKey(u[j]))
            && forall i :: 0 <= i < |s| ==> exists j :: 0 <= j < |u| && PyKey(u[j]) == PyKey(s[i])
  {
    var u := Unique(s);
    var k := Keyed(u);
    UniqueKeys(s);
    assert forall i :: 0 <= i < |u| ==> PyKey(u[i]) == k[i];
    forall i | 0 <= i < |s| ensures exists j :: 0 <= j < |u| && PyKey(u[j]) == PyKey(s[i]) {
      assert Keyed(s)[i] == PyKey(s[i]);
      assert PyKey(s[i]) in Keyed(s);
      assert PyKey(s[i]) in k;
      var j :| 0 <= j < |k| && k[j] == PyKey(s[i]);
      assert PyKey(u[j]) == PyKey(s[i]);
    }
  }

  /** The values of Unique come in the order of their keys' first occurrence. */
  lemma UniqueFirstSeen(s: seq<Cell>, i: nat, j: nat)
    requires i < j < |Unique(s)|
    ensures PyKey(Unique(s)[i]) in Keyed(s) && PyKey(Unique(s)[j]) in Keyed(s)
    ensures FirstIndex(Keyed(s), PyKey(Unique(s)[i])) < FirstIndex(Keyed(s), PyKey(Unique(s)[j]))
  {
    var k := Keyed(Unique(s));
    UniqueKeys(s);
    assert k[i] == PyKey(Unique(s)[i]) && k[j] == PyKey(Unique(s)[j]);
    DistinctFirstSeen(Keyed(s), i, j);
  }

  /** `unique()` keeps the first cell of each class: `[True, 1]` gives `[True]`. */
  lemma {:induction false} UniqueFirstObject(s: seq<Cell>, i: nat)
    requires i < |Unique(s)|
    ensures PyKey(Unique(s)[i]) in Keyed(s)
    ensures Unique(s)[i] == s[FirstIndex(Keyed(s), PyKey(Unique(s)[i]))]
  {
    var u := Unique(s);
    UniqueKeys(s);
    assert Keyed(u)[i] == PyKey(u[i]);
    var init := s[..|s| - 1];
    var x := s[|s| - 1];
    var ui := Unique(init);
    UniqueKeys(init);
    assert s == init + [x];
    KeyedSnoc(init, x);
    if i < |ui| {
      UniqueFirstObject(init, i);
      assert u[i] == ui[i];
      FirstIndexPrefix(Keyed(s), Keyed(init), PyKey(u[i]));
    } else {
      assert u[i] == x && PyKey(x) !in Keyed(ui);
      assert PyKey(x) !in Keyed(init);
      assert Keyed(s)[..|s| - 1] == Keyed(init);
    }
  }

  /** `len(df[df['src_ip'] == ip])`: the rows Python-equal to ip; NaN and None equal nothing. */
  function Appearances(col: seq<Cell>, ip: Cell): (n: nat)
    ensures n <= |col|
    ensures IsNA(ip) ==> n == 0
  {
    if IsNA(ip) then 0 else Count(Keyed(col), PyKey(ip))
  }

  /** The total of Appearances over a list of addresses. */
  function SumAppearances(col: seq<Cell>, ips: seq<Cell>): nat {
    if ips == [] then 0
    else SumAppearances(col, ips[..|ips| - 1]) + Appearances(col, ips[|ips| - 1])
  }

  /** One more row in the column adds one to the count of every listed address equal to it. */
  lemma {:induction false} SumAppearancesGrow(col: seq<Cell>, y: Cell, ips: seq<Cell>)
    ensures SumAppearances(col + [y], ips)
            == SumAppearances(col, ips) + (if IsNA(y) then 0 else Count(Keyed(ips), PyKey(y)))
  {
    if ips != [] {
      var init := ips[..|ips| - 1];
      var ip := ips[|ips| - 1];
      SumAppearancesGrow(col, y, init);
      KeyedSnoc(col, y);
      assert Keyed(col + [y])[..|col|] == Keyed(col);
      assert ips == init + [ip];
      KeyedSnoc(init, ip);
      assert Keyed(ips)[..|ips| - 1] == Keyed(init);
    }
  }

  /**
   * Counting correctness: over the addresses `unique()` gives, the appearance counts
   * add up to the number of rows whose address is not NaN or None.
   */
  lemma {:induction false} AppearancesSum(col: seq<Cell>)
    ensures SumAppearances(col, Unique(col)) == CountKnown(col)
  {
    if col != [] {
      var init := col[..|col| - 1];
      var y := col[|col| - 1];
      assert col == init + [y];
      var u := Unique(init);
      UniqueKeys(init);
      AppearancesSum(init);
      SumAppearancesGrow(init, y, u);
      CountDistinct(Keyed(u), PyKey(y));
      KeyedSnoc(init, y);
      assert Keyed(col)[..|col| - 1] == Keyed(init);
      if PyKey(y) !in Keyed(u) {
        assert Unique(col) == u + [y];
        assert (u + [y])[..|u + [y]| - 1] == u;
        assert PyKey(y) !in Keyed(init);
        CountAbsent(Keyed(init), PyKey(y));
        assert Count(Keyed(col), PyKey(y)) == 1;
      }
    }
  }

  /** A column without NaN or None has every row known. */
  lemma {:induction false} CountKnownAll(s: seq<Cell>)
    requires forall i :: 0 <= i < |s| ==> !IsNA(s[i])
    ensures CountKnown(s) == |s|
  {
    if s != [] {
      CountKnownAll(s[..|s| - 1]);
    }
  }

  /** Two Python-equal addresses are one address for `unique()`, kept as the first and counted twice. */
  lemma EqualPair(x: Cell, y: Cell)
    requires PyKey(x) == PyKey(y) && !IsNA(x)
    ensures Unique([x, y]) == [x]
    ensures Appearances([x, y], x) == 2
  {
    var k := PyKey(x);
    assert [x, y][..1] == [x] && [x][..0] == [];
    assert Unique([x]) == [x] by {
      assert Keyed([]) == [];
    }
    assert Keyed([x]) == [k];
    assert Keyed([x, y]) == [k, k];
    assert [k, k][..1] == [k] && [k][..0] == [];
    assert Count([k], k) == 1;
  }

  /** Python equality at work: `True` and `1` are one address, counted twice, kept as `True`. */
  lemma TrueIsOne()
    ensures var col := [Present(JBool(true)), Present(JNum(1))];
            && Unique(col) == [Present(JBool(true))]
            && Appearances(col, Present(JBool(true))) == 2
  {
    EqualPair(Present(JBool(true)), Present(JNum(1)));
  }

  /** The addresses the lookup answers for, in order. */
  function Answered(ips: seq<Cell>, lookup: Locator): (r: seq<Cell>)
    ensures forall x :: x in r <==> x in ips && lookup(x).Some?
  {
    if ips == [] then []
    else
      var init := ips[..|ips| - 1];
      var x := ips[|ips| - 1];
      assert ips == init + [x];
      Answered(init, lookup) + (if lookup(x).Some? then [x] else [])
  }

  /** The rows the inner loop emits for one honeypot, from a list of addresses. */
  function HoneypotRows(name: string, col: seq<Cell>, ips: seq<Cell>, lookup: Locator): seq<LocRow> {
    if ips == [] then []
    else
      var ip := ips[|ips| - 1];
      HoneypotRows(name, col, ips[..|ips| - 1], lookup)
      + match lookup(ip)
        case Some(loc) => [LocRow(name, ip, Appearances(col, ip), loc)]
        case None => []
  }

  /** The addresses of a list of rows. */
  function RowIps(rows: seq<LocRow>): (ips: seq<Cell>)
    ensures |ips| == |rows|
    ensures forall k :: 0 <= k < |rows| ==> ips[k] == rows[k].ip
  {
    seq(|rows|, k requires 0 <= k < |rows| => rows[k].ip)
  }

  /** The sum of the Appearances column of a list of rows. */
  function TotalAppearances(rows: seq<LocRow>): nat {
    if rows == [] then 0 else TotalAppearances(rows[..|rows| - 1]) + rows[|rows| - 1].appearances
  }

  /**
   * The rows for one honeypot visit exactly the addresses the lookup answers for,
   * in the order of ips; addresses without an answer emit nothing.
   */
  lemma {:induction false} HoneypotRowsIps(name: string, col: seq<Cell>, ips: seq<Cell>, lookup: Locator)
    ensures RowIps(HoneypotRows(name, col, ips, lookup)) == Answered(ips, lookup)
  {
    if ips != [] {
      var init := ips[..|ips| - 1];
      var ip := ips[|ips| - 1];
      HoneypotRowsIps(name, col, init, lookup);
      var prev := HoneypotRows(name, col, init, lookup);
      var rows := HoneypotRows(name, col, ips, lookup);
      if lookup(ip).Some? {
        assert RowIps(rows) == RowIps(prev) + [ip];
      } else {
        assert rows == prev;
      }
    }
  }

  /** Every row carries the honeypot's name, the address's count in col and the location the lookup gave. */
  predicate RowsDescribe(rows: seq<LocRow>, name: string, col: seq<Cell>, lookup: Locator) {
    forall k :: 0 <= k < |rows| ==>
      && rows[k].honeypot == name
      && rows[k].appearances == Appearances(col, rows[k].ip)
      && lookup(rows[k].ip) == Some(rows[k].location)
  }

  /**
   * Each row for one honeypot carries the honeypot's name, the address's count in
   * the column and the location the lookup gave for the address.
   */
  lemma {:induction false} HoneypotRowsFields(name: string, col: seq<Cell>, ips: seq<Cell>, lookup: Locator)
    ensures RowsDescribe(HoneypotRows(name, col, ips, lookup), name, col, lookup)
  {
    if ips != [] {
      var ip := ips[|ips| - 1];
      HoneypotRowsFields(name, col, ips[..|ips| - 1], lookup);
      var prev := HoneypotRows(name, col, ips[..|ips| - 1], lookup);
      if lookup(ip).Some? {
        var loc := lookup(ip).value;
        assert HoneypotRows(name, col, ips, lookup) == prev + [LocRow(name, ip, Appearances(col, ip), loc)];
      }
    }
  }

  /** When every address is answered, the Appearances column adds up to the counts of ips. */
  lemma {:induction false} HoneypotRowsTotal(name: string, col: seq<Cell>, ips: seq<Cell>, lookup: Locator)
    requires forall x :: x in ips ==> lookup(x).Some?
    ensures TotalAppearances(HoneypotRows(name, col, ips, lookup)) == SumAppearances(col, ips)
  {
    if ips != [] {
      var init := ips[..|ips| - 1];
      assert forall x :: x in init ==> x in ips;
      HoneypotRowsTotal(name, col, init, lookup);
      var rows := HoneypotRows(name, col, ips, lookup);
      assert rows[..|rows| - 1] == HoneypotRows(name, col, init, lookup);
    }
  }

  /** A lookup that never answers emits no row for one honeypot. */
  lemma {:induction false} HoneypotRowsUnanswered(name: string, col: seq<Cell>, ips: seq<Cell>, lookup: Locator)
    requires forall x :: lookup(x).None?
    ensures HoneypotRows(name, col, ips, lookup) == []
  {
    if ips != [] {
      HoneypotRowsUnanswered(name, col, ips[..|ips| - 1], lookup);
    }
  }

  /** The rows of one honeypot of the dict: its distinct `src_ip` values, in first-seen order. */
  function GroupRows(entry: (string, Frame), lookup: Locator): seq<LocRow> {
    var col := Column(entry.1, "src_ip");
    HoneypotRows(entry.0, col, Unique(col), lookup)
  }

  /** The `ip_loc` table: every honeypot's rows, grouped by honeypot in dict order. */
  function IpLocationRows(honeypotDfs: seq<(string, Frame)>, lookup: Locator): (r: seq<LocRow>)
    ensures forall k :: 0 <= k < |r| ==> lookup(r[k].ip) == Some(r[k].location)
  {
    if honeypotDfs == [] then []
    else
      var prev := IpLocationRows(honeypotDfs[..|honeypotDfs| - 1], lookup);
      var (name, df) := honeypotDfs[|honeypotDfs| - 1];
      var col := Column(df, "src_ip");
      HoneypotRowsFields(name, col, Unique(col), lookup);
      prev + GroupRows(honeypotDfs[|honeypotDfs| - 1], lookup)
  }

  /** Regrouping three runs of rows. */
  lemma RegroupRows(ra: seq<LocRow>, rb: seq<LocRow>, g: seq<LocRow>)
    ensures (ra + rb) + g == ra + (rb + g)
  {
  }

  /** Rows are grouped by honeypot: the table of a concatenation is the concatenation of tables. */
  lemma {:induction false} IpLocationRowsAppend(a: seq<(string, Frame)>, b: seq<(string, Frame)>, lookup: Locator)
    ensures IpLocationRows(a + b, lookup) == IpLocationRows(a, lookup) + IpLocationRows(b, lookup)
  {
    if b == [] {
      assert a + b == a;
    } else {
      var binit := b[..|b| - 1];
      var ab := a + b;
      assert ab[..|ab| - 1] == a + binit;
      assert ab[|ab| - 1] == b[|b| - 1];
      IpLocationRowsAppend(a, binit, lookup);
      var g := GroupRows(b[|b| - 1], lookup);
      var ra, rb := IpLocationRows(a, lookup), IpLocationRows(binit, lookup);
      assert IpLocationRows(b, lookup) == rb + g;
      assert IpLocationRows(ab, lookup) == IpLocationRows(a + binit, lookup) + g;
      assert IpLocationRows(a + binit, lookup) == ra + rb;
      RegroupRows(ra, rb, g);
    }
  }

  /** With a lookup that never answers, the table is empty. */
  lemma {:induction false} NoAnswersNoRows(honeypotDfs: seq<(string, Frame)>, lookup: Locator)
    requires forall x :: lookup(x).None?
    ensures IpLocationRows(honeypotDfs, lookup) == []
  {
    if honeypotDfs != [] {
      NoAnswersNoRows(honeypotDfs[..|honeypotDfs| - 1], lookup);
      var (name, df) := honeypotDfs[|honeypotDfs| - 1];
      HoneypotRowsUnanswered(name, Column(df, "src_ip"), Unique(Column(df, "src_ip")), lookup);
      assert GroupRows(honeypotDfs[|honeypotDfs| - 1], lookup) == [];
    }
  }

  /**
   * With a lookup that always answers, a honeypot's rows visit each distinct address
   * of its `src_ip` column exactly once, in first-seen order.
   */
  lemma AllAnsweredIps(name: string, df: Frame, lookup: Locator)
    requires forall x :: lookup(x).Some?
    ensures var col := Column(df, "src_ip");
            RowIps(HoneypotRows(name, col, Unique(col), lookup)) == Unique(col)
  {
    var col := Column(df, "src_ip");
    HoneypotRowsIps(name, col, Unique(col), lookup);
    AnsweredAll(Unique(col), lookup);
  }

  /**
   * With a lookup that always answers, every address but NaN or None is counted at
   * least once, and the counts add up to the honeypot's rows with a known address.
   */
  lemma AllAnsweredCounts(name: string, df: Frame, lookup: Locator)
    requires forall x :: lookup(x).Some?
    ensures var col := Column(df, "src_ip");
            var rows := HoneypotRows(name, col, Unique(col), lookup);
            && (forall k :: 0 <= k < |rows| && !IsNA(rows[k].ip) ==> rows[k].appearances >= 1)
            && TotalAppearances(rows) == CountKnown(col)
  {
    var col := Column(df, "src_ip");
    var u := Unique(col);
    var rows := HoneypotRows(name, col, u, lookup);
    UniqueKeys(col);
    AllAnsweredIps(name, df, lookup);
    HoneypotRowsFields(name, col, u, lookup);
    HoneypotRowsTotal(name, col, u, lookup);
    AppearancesSum(col);
    forall k | 0 <= k < |rows| && !IsNA(rows[k].ip) ensures rows[k].appearances >= 1 {
      assert rows[k].ip == RowIps(rows)[k] == u[k];
      assert Keyed(u)[k] == PyKey(u[k]) && Keyed(u)[k] in Keyed(u);
      CountPositive(Keyed(col), PyKey(u[k]));
    }
  }

  /**
   * With a lookup that always answers and no NaN or None address, the Appearances
   * column of a honeypot adds up to its number of rows.
   */
  lemma KnownColumnTotal(name: string, df: Frame, lookup: Locator)
    requires forall x :: lookup(x).Some?
    requires forall i :: 0 <= i < |df.rows| ==> !IsNA(Column(df, "src_ip")[i])
    ensures var col := Column(df, "src_ip");
            TotalAppearances(HoneypotRows(name, col, Unique(col), lookup)) == |df.rows|
  {
    AllAnsweredCounts(name, df, lookup);
    CountKnownAll(Column(df, "src_ip"));
  }

  /** A lookup that answers every address keeps every address. */
  lemma {:induction false} AnsweredAll(ips: seq<Cell>, lookup: Locator)
    requires forall x :: lookup(x).Some?
    ensures Answered(ips, lookup) == ips
  {
    if ips != [] {
      AnsweredAll(ips[..|ips| - 1], lookup);
      assert ips == ips[..|ips| - 1] + [ips[|ips| - 1]];
    }
  }

  /** The location columns of `attributes_list` after Honeypot, IP and Appearances. */
  const LocationColumns: seq<string> :=
    ["City", "Zip Code", "Region Code", "Region Name", "Country Code", "Country Name", "Latitude", "Longitude"]

  /** `ip_loc.loc[len(ip_loc)] = values_list` needs exactly one value per column. */
  ghost predicate FitsRow(lookup: Locator) {
    forall x :: lookup(x).Some? ==> |lookup(x).value| == |LocationColumns|
  }

  /** One more address of the inner loop. */
  lemma HoneypotRowsStep(name: string, col: seq<Cell>, ips: seq<Cell>, k: nat, lookup: Locator)
    requires k < |ips|
    ensures HoneypotRows(name, col, ips[..k + 1], lookup)
            == HoneypotRows(name, col, ips[..k], lookup)
               + match lookup(ips[k])
                 case Some(loc) => [LocRow(name, ips[k], Appearances(col, ips[k]), loc)]
                 case None => []
  {
    assert ips[..k + 1][..k] == ips[..k];
  }

  /** One more honeypot of the outer loop. */
  lemma IpLocationRowsStep(honeypotDfs: seq<(string, Frame)>, h: nat, lookup: Locator)
    requires h < |honeypotDfs|
    ensures IpLocationRows(honeypotDfs[..h + 1], lookup) == IpLocationRows(honeypotDfs[..h], lookup) + GroupRows(honeypotDfs[h], lookup)
  {
    assert honeypotDfs[..h + 1][..h] == honeypotDfs[..h];
  }

  // ------------------------------------------------ unhashable addresses

  /** `unique()` raised TypeError on an unhashable address of this honeypot's frame. */
  datatype LocationError = UnhashableAddress(honeypot: string)

  /** Every address of the honeypot's `src_ip` column can be hashed. */
  predicate ColumnHashable(entry: (string, Frame)) {
    var col := Column(entry.1, "src_ip");
    forall i :: 0 <= i < |col| ==> Hashable(col[i])
  }

  /**
   * What `create_ip_location_df` returns: the table, or the TypeError `unique()`
   * raises at the first honeypot, in dict order, holding a list or dict address.
   */
  function IpLocations(honeypotDfs: seq<(string, Frame)>, lookup: Locator): Result<seq<LocRow>, LocationError> {
    if honeypotDfs == [] then Success([])
    else
      var prev :- IpLocations(honeypotDfs[..|honeypotDfs| - 1], lookup);
      var entry := honeypotDfs[|honeypotDfs| - 1];
      if ColumnHashable(entry) then Success(prev + GroupRows(entry, lookup))
      else Failure(UnhashableAddress(entry.0))
  }

  /** The table is built exactly when every address is hashable, and it is then IpLocationRows. */
  lemma {:induction false} IpLocationsSucceeds(honeypotDfs: seq<(string, Frame)>, lookup: Locator)
    ensures IpLocations(honeypotDfs, lookup).Success? <==> forall h :: 0 <= h < |honeypotDfs| ==> ColumnHashable(honeypotDfs[h])
    ensures IpLocations(honeypotDfs, lookup).Success? ==> IpLocations(honeypotDfs, lookup).value == IpLocationRows(honeypotDfs, lookup)
  {
    if honeypotDfs != [] {
      var init := honeypotDfs[..|honeypotDfs| - 1];
      var last := honeypotDfs[|honeypotDfs| - 1];
      IpLocationsSucceeds(init, lookup);
      assert honeypotDfs == init + [last];
      if IpLocations(honeypotDfs, lookup).Success? {
        forall h | 0 <= h < |honeypotDfs| ensures ColumnHashable(honeypotDfs[h]) {
          if h < |init| { assert honeypotDfs[h] == init[h]; }
        }
      } else if IpLocations(init, lookup).Success? {
        assert !ColumnHashable(honeypotDfs[|honeypotDfs| - 1]);
      } else {
        var h :| 0 <= h < |init| && !ColumnHashable(init[h]);
        assert honeypotDfs[h] == init[h];
      }
    }
  }

  /** A failing table names the first honeypot, in dict order, with an unhashable address. */
  lemma {:induction false} IpLocationsFirstUnhashable(honeypotDfs: seq<(string, Frame)>, lookup: Locator)
    requires IpLocations(honeypotDfs, lookup).Failure?
    ensures exists h :: 0 <= h < |honeypotDfs|
                        && IpLocations(honeypotDfs, lookup).error == UnhashableAddress(honeypotDfs[h].0)
                        && !ColumnHashable(honeypotDfs[h])
                        && forall g :: 0 <= g < h ==> ColumnHashable(honeypotDfs[g])
  {
    var init := honeypotDfs[..|honeypotDfs| - 1];
    var last := |honeypotDfs| - 1;
    if IpLocations(init, lookup).Failure? {
      IpLocationsFirstUnhashable(init, lookup);
      var h :| 0 <= h < |init| && IpLocations(init, lookup).error == UnhashableAddress(init[h].0)
               && !ColumnHashable(init[h]) && forall g :: 0 <= g < h ==> ColumnHashable(init[g]);
      assert honeypotDfs[h] == init[h];
      assert forall g :: 0 <= g < h ==> honeypotDfs[g] == init[g];
    } else {
      IpLocationsSucceeds(init, lookup);
      assert forall g :: 0 <= g < last ==> honeypotDfs[g] == init[g];
      assert IpLocations(honeypotDfs, lookup).error == UnhashableAddress(honeypotDfs[last].0);
    }
  }

  /** One more honeypot of the outer loop, once the earlier ones succeeded. */
  lemma IpLocationsStep(honeypotDfs: seq<(string, Frame)>, h: nat, lookup: Locator, acc: seq<LocRow>)
    requires h < |honeypotDfs| && IpLocations(honeypotDfs[..h], lookup) == Success(acc)
    ensures IpLocations(honeypotDfs[..h + 1], lookup)
            == if ColumnHashable(honeypotDfs[h]) then Success(acc + GroupRows(honeypotDfs[h], lookup))
               else Failure(UnhashableAddress(honeypotDfs[h].0))
  {
    assert honeypotDfs[..h + 1][..h] == honeypotDfs[..h];
  }

  /** Once a prefix of the dict has failed, the whole table fails the same way. */
  lemma {:induction false} IpLocationsFailed(honeypotDfs: seq<(string, Frame)>, h: nat, lookup: Locator)
    requires h <= |honeypotDfs| && IpLocations(honeypotDfs[..h], lookup).Failure?
    ensures IpLocations(honeypotDfs, lookup) == IpLocations(honeypotDfs[..h], lookup)
    decreases |honeypotDfs| - h
  {
    if h < |honeypotDfs| {
      assert honeypotDfs[..h + 1][..h] == honeypotDfs[..h];
      IpLocationsFailed(honeypotDfs, h + 1, lookup);
    } else {
      assert honeypotDfs[..h] == honeypotDfs;
    }
  }

  /** The inner loop of `create_ip_location_df`: one row per distinct address the lookup answers for. */
  method AppendHoneypotRows(ipLoc: seq<LocRow>, honeypotName: string, col: seq<Cell>, lookup: Locator)
    returns (r: seq<LocRow>)
    requires FitsRow(lookup)
    ensures r == ipLoc + HoneypotRows(honeypotName, col, Unique(col), lookup)
  {
    var ips := Unique(col);
    r := ipLoc;
    for k := 0 to |ips|
      invariant r == ipLoc + HoneypotRows(honeypotName, col, ips[..k], lookup)
    {
      var ip := ips[k];
      var ipAppearances := Appearances(col, ip);
      var answer := lookup(ip);
      HoneypotRowsStep(honeypotName, col, ips, k, lookup);
      if answer.Some? {
        ghost var prior := HoneypotRows(honeypotName, col, ips[..k], lookup);
        assert (ipLoc + prior) + [LocRow(honeypotName, ip, ipAppearances, answer.value)]
               == ipLoc + (prior + [LocRow(honeypotName, ip, ipAppearances, answer.value)]);
        r := r + [LocRow(honeypotName, ip, ipAppearances, answer.value)];
      } else {
        assert HoneypotRows(honeypotName, col, ips[..k + 1], lookup) == HoneypotRows(honeypotName, col, ips[..k], lookup) + [];
      }
    }
    assert ips[..|ips|] == ips;
  }

  /** The outer loop of `create_ip_location_df`, over the honeypots in dict order. */
  method CreateIpLocation(honeypotDfs: seq<(string, Frame)>, lookup: Locator) returns (r: Result<seq<LocRow>, LocationError>)
    requires forall h :: 0 <= h < |honeypotDfs| ==> "src_ip" in honeypotDfs[h].1.columns
    requires FitsRow(lookup)
    ensures r == IpLocations(honeypotDfs, lookup)
  {
    var ipLoc := [];
    for h := 0 to |honeypotDfs|
      invariant IpLocations(honeypotDfs[..h], lookup) == Success(ipLoc)
    {
      var (honeypotName, df) := honeypotDfs[h];
      var col := Column(df, "src_ip");
      IpLocationsStep(honeypotDfs, h, lookup, ipLoc);
      if !ColumnHashable(honeypotDfs[h]) {
        IpLocationsFailed(honeypotDfs, h + 1, lookup);
        return Failure(UnhashableAddress(honeypotName));
      }
      ipLoc := AppendHoneypotRows(ipLoc, honeypotName, col, lookup);
    }
    assert honeypotDfs[..|honeypotDfs|] == honeypotDfs;
    return Success(ipLoc);
  }
}
