/** Row assembly and the CSV sink of the export script: every alert, every
    subnet of its IP filter, every match of the search for that subnet gives
    one six-field row, appended to `server-<term>.csv` after a header that is
    written only when the file was empty at open. */
module Report {
  import opened Text
  import opened Banner

  datatype Option<T> = None | Some(value: T)
  datatype Result<T> = Ok(value: T) | Err(message: string)

  /** One host of a search result: its `ip_str` and its banner `data`. */
  datatype Match = Match(ipStr: string, data: string)

  /** One alert of the alert-info response: `name`, `id` and `filters.ip`. */
  datatype Alert = Alert(name: string, id: string, ipFilter: seq<string>)

  /** One data row, field by field in the writer's column order. */
  datatype Row = Row(name: string, alertId: string, subnet: string,
                     ipAddress: string, serverType: string, p3p: string)

  /** A line of the CSV file: the header, or the cells of one data row. */
  datatype Record = Header | Data(cells: seq<string>)

  /** The search client, seen as a function from query text to the matches it returns. */
  type Search = string -> seq<Match>

  /** The writer's field names, which are also the header's cells. */
  const FieldNames: seq<string> := ["name", "alert_id", "Subnet", "ipaddress", "server_type", "P3P"]

  // ----- output file name and search query -----

  /** `"server-" + term + ".csv"` */
  function FileName(term: string): string
  {
    "server-" + term + ".csv"
  }

  /** Reads the search term back out of an output file name. */
  function TermOfFileName(fileName: string): Option<string>
  {
    if |fileName| >= 11 && fileName[..7] == "server-" && fileName[|fileName| - 4..] == ".csv"
    then Some(fileName[7..|fileName| - 4])
    else None
  }

  /** The file name determines the term and the term the file name, so two
      different terms never share an output file. */
  lemma FileNameInverse(fileName: string, term: string)
    ensures TermOfFileName(fileName) == Some(term) <==> fileName == FileName(term)
  {
    var f := FileName(term);
    assert f[..7] == "server-" && f[|f| - 4..] == ".csv" && f[7..|f| - 4] == term;
    if TermOfFileName(fileName) == Some(term) {
      assert fileName == fileName[..7] + fileName[7..|fileName| - 4] + fileName[|fileName| - 4..];
    }
  }

  /** `f"{term} net:{subnet}"` */
  function Query(term: string, subnet: string): string
  {
    term + " net:" + subnet
  }

  /** Reads the subnet back out of a query built for `term`. */
  function SubnetOfQuery(term: string, query: string): Option<string>
  {
    if |query| >= |term| + 5 && query[..|term|] == term && query[|term|..|term| + 5] == " net:"
    then Some(query[|term| + 5..])
    else None
  }

  /** For a fixed term, the query determines the subnet and the subnet the query. */
  lemma QueryInverse(term: string, query: string, subnet: string)
    ensures SubnetOfQuery(term, query) == Some(subnet) <==> query == Query(term, subnet)
  {
    var q := Query(term, subnet);
    assert q[..|term|] == term && q[|term|..|term| + 5] == " net:" && q[|term| + 5..] == subnet;
    if SubnetOfQuery(term, query) == Some(subnet) {
      assert query == query[..|term|] + query[|term|..|term| + 5] + query[|term| + 5..];
    }
  }

  // ----- the rows the run produces -----

  /** The row written for one match of one subnet of one alert. */
  function MatchRow(alert: Alert, subnet: string, m: Match): Row
  {
    var (server, p3p) := Fields(m.data);
    Row(alert.name, alert.id, subnet, m.ipStr, server, p3p)
  }

  /** The rows of one subnet: one per match, in match order. */
  function MatchRows(alert: Alert, subnet: string, matches: seq<Match>): seq<Row>
  {
    if matches == [] then []
    else MatchRows(alert, subnet, matches[..|matches| - 1]) + [MatchRow(alert, subnet, matches[|matches| - 1])]
  }

  /** The rows of one alert: the subnets' rows, in subnet order. */
  function SubnetRows(term: string, search: Search, alert: Alert, subnets: seq<string>): seq<Row>
  {
    if subnets == [] then []
    else
      var subnet := subnets[|subnets| - 1];
      SubnetRows(term, search, alert, subnets[..|subnets| - 1]) + MatchRows(alert, subnet, search(Query(term, subnet)))
  }

  /** The rows of a run: the alerts' rows, in alert order. */
  function Rows(term: string, search: Search, alerts: seq<Alert>): seq<Row>
  {
    if alerts == [] then []
    else
      var alert := alerts[|alerts| - 1];
      Rows(term, search, alerts[..|alerts| - 1]) + SubnetRows(term, search, alert, alert.ipFilter)
  }

  /** Number of matches over the subnets of one alert. */
  function SubnetMatchCount(term: string, search: Search, subnets: seq<string>): nat
  {
    if subnets == [] then 0
    else |search(Query(term, subnets[0]))| + SubnetMatchCount(term, search, subnets[1..])
  }

  /** Number of (alert, subnet, match) triples of a run. */
  function MatchCount(term: string, search: Search, alerts: seq<Alert>): nat
  {
    if alerts == [] then 0
    else SubnetMatchCount(term, search, alerts[0].ipFilter) + MatchCount(term, search, alerts[1..])
  }

  lemma {:induction false} MatchRowsAt(alert: Alert, subnet: string, matches: seq<Match>)
    ensures |MatchRows(alert, subnet, matches)| == |matches|
    ensures forall k :: 0 <= k < |matches| ==> MatchRows(alert, subnet, matches)[k] == MatchRow(alert, subnet, matches[k])
    decreases |matches|
  {
    if matches != [] {
      var init := matches[..|matches| - 1];
      MatchRowsAt(alert, subnet, init);
      assert forall k :: 0 <= k < |init| ==> init[k] == matches[k];
    }
  }

  lemma {:induction false} SubnetRowsAppend(term: string, search: Search, alert: Alert, a: seq<string>, b: seq<string>)
    ensures SubnetRows(term, search, alert, a + b) == SubnetRows(term, search, alert, a) + SubnetRows(term, search, alert, b)
    decreases |b|
  {
    if b == [] {
      assert a + b == a;
    } else {
      var init, last := b[..|b| - 1], b[|b| - 1];
      var lastRows := MatchRows(alert, last, search(Query(term, last)));
      assert (a + b)[..|a + b| - 1] == a + init;
      assert (a + b)[|a + b| - 1] == last;
      assert SubnetRows(term, search, alert, a + b) == SubnetRows(term, search, alert, a + init) + lastRows;
      assert SubnetRows(term, search, alert, b) == SubnetRows(term, search, alert, init) + lastRows;
      SubnetRowsAppend(term, search, alert, a, init);
      AppendAssoc(SubnetRows(term, search, alert, a), SubnetRows(term, search, alert, init), lastRows);
    }
  }

  lemma {:induction false} RowsAppend(term: string, search: Search, a: seq<Alert>, b: seq<Alert>)
    ensures Rows(term, search, a + b) == Rows(term, search, a) + Rows(term, search, b)
    decreases |b|
  {
    if b == [] {
      assert a + b == a;
    } else {
      var init, last := b[..|b| - 1], b[|b| - 1];
      var lastRows := SubnetRows(term, search, last, last.ipFilter);
      assert (a + b)[..|a + b| - 1] == a + init;
      assert (a + b)[|a + b| - 1] == last;
      assert Rows(term, search, a + b) == Rows(term, search, a + init) + lastRows;
      assert Rows(term, search, b) == Rows(term, search, init) + lastRows;
      RowsAppend(term, search, a, init);
      AppendAssoc(Rows(term, search, a), Rows(term, search, init), lastRows);
    }
  }

  lemma {:induction false} SubnetRowCount(term: string, search: Search, alert: Alert, subnets: seq<string>)
    ensures |SubnetRows(term, search, alert, subnets)| == SubnetMatchCount(term, search, subnets)
    decreases |subnets|
  {
    if subnets != [] {
      var rest := subnets[1..];
      SubnetRowCount(term, search, alert, rest);
      SubnetRowsAppend(term, search, alert, [subnets[0]], rest);
      assert [subnets[0]] + rest == subnets;
      assert [subnets[0]][..0] == [];
      MatchRowsAt(alert, subnets[0], search(Query(term, subnets[0])));
    }
  }

  /** One row per (alert, subnet, match) triple: the row count is the sum over
      the alerts of the sum over their subnets of the number of matches. */
  lemma {:induction false} RowCount(term: string, search: Search, alerts: seq<Alert>)
    ensures |Rows(term, search, alerts)| == MatchCount(term, search, alerts)
    decreases |alerts|
  {
    if alerts != [] {
      var rest := alerts[1..];
      RowCount(term, search, rest);
      RowsAppend(term, search, [alerts[0]], rest);
      assert [alerts[0]] + rest == alerts;
      assert [alerts[0]][..0] == [];
      SubnetRowCount(term, search, alerts[0], alerts[0].ipFilter);
    }
  }

  /** With `subnetsPerAlert` subnets in every alert and `matchesPerSubnet`
      matches for every subnet, the run writes their product of rows. */
  lemma {:induction false} UniformRowCount(term: string, search: Search, alerts: seq<Alert>,
                                           subnetsPerAlert: nat, matchesPerSubnet: nat)
    requires forall a :: a in alerts ==> |a.ipFilter| == subnetsPerAlert
    requires forall a, s :: a in alerts && s in a.ipFilter ==> |search(Query(term, s))| == matchesPerSubnet
    ensures |Rows(term, search, alerts)| == |alerts| * subnetsPerAlert * matchesPerSubnet
    decreases |alerts|
  {
    if alerts != [] {
      var init, alert := alerts[..|alerts| - 1], alerts[|alerts| - 1];
      assert forall a :: a in init ==> a in alerts;
      UniformRowCount(term, search, init, subnetsPerAlert, matchesPerSubnet);
      assert forall s :: s in alert.ipFilter ==> |search(Query(term, s))| == matchesPerSubnet;
      UniformSubnetRowCount(term, search, alert, alert.ipFilter, matchesPerSubnet);
      assert |Rows(term, search, alerts)|
          == |Rows(term, search, init)| + |SubnetRows(term, search, alert, alert.ipFilter)|;
      MulStep3(|init|, subnetsPerAlert, matchesPerSubnet);
    }
  }

  lemma {:induction false} UniformSubnetRowCount(term: string, search: Search, alert: Alert,
                                                 subnets: seq<string>, matchesPerSubnet: nat)
    requires forall s :: s in subnets ==> |search(Query(term, s))| == matchesPerSubnet
    ensures |SubnetRows(term, search, alert, subnets)| == |subnets| * matchesPerSubnet
    decreases |subnets|
  {
    if subnets != [] {
      var init, subnet := subnets[..|subnets| - 1], subnets[|subnets| - 1];
      assert forall s :: s in init ==> s in subnets;
      UniformSubnetRowCount(term, search, alert, init, matchesPerSubnet);
      MatchRowsAt(alert, subnet, search(Query(term, subnet)));
      assert |SubnetRows(term, search, alert, subnets)|
          == |SubnetRows(term, search, alert, init)| + |search(Query(term, subnet))|;
      assert |subnets| == |init| + 1;
      MulStep(|init|, matchesPerSubnet);
    }
  }

  lemma MulStep(n: nat, k: nat)
    ensures (n + 1) * k == n * k + k
  {
  }

  lemma MulStep3(n: nat, k: nat, m: nat)
    ensures (n + 1) * k * m == n * k * m + k * m
  {
    MulStep(n, k);
    MulStep(n * k, m);
    assert (n * k + k) * m == n * k * m + k * m;
  }

  /** The rows of one subnet are exactly the rows of its matches. */
  lemma MatchRowsExactly(alert: Alert, subnet: string, matches: seq<Match>)
    ensures forall r :: r in MatchRows(alert, subnet, matches) ==>
              r.name == alert.name && r.alertId == alert.id && r.subnet == subnet
    ensures forall r :: r in MatchRows(alert, subnet, matches) ==>
              exists m :: m in matches && r == MatchRow(alert, subnet, m)
    ensures forall m :: m in matches ==> MatchRow(alert, subnet, m) in MatchRows(alert, subnet, matches)
  {
    var rows := MatchRows(alert, subnet, matches);
    MatchRowsAt(alert, subnet, matches);
    forall r | r in rows
      ensures r.name == alert.name && r.alertId == alert.id && r.subnet == subnet
      ensures exists m :: m in matches && r == MatchRow(alert, subnet, m)
    {
      var k :| 0 <= k < |rows| && rows[k] == r;
      assert r == MatchRow(alert, subnet, matches[k]);
    }
    forall m | m in matches
      ensures MatchRow(alert, subnet, m) in rows
    {
      var k :| 0 <= k < |matches| && matches[k] == m;
      assert rows[k] == MatchRow(alert, subnet, m);
    }
  }

  /** Every row of an alert's subnets carries that alert's name and id and one
      of those subnets, and comes from a match of the search for that subnet;
      conversely every such match has its row. */
  lemma {:induction false} SubnetRowsExactly(term: string, search: Search, alert: Alert, subnets: seq<string>)
    ensures forall r :: r in SubnetRows(term, search, alert, subnets) ==>
              r.name == alert.name && r.alertId == alert.id && r.subnet in subnets
    ensures forall r :: r in SubnetRows(term, search, alert, subnets) ==>
              exists s, m :: s in subnets && m in search(Query(term, s)) && r == MatchRow(alert, s, m)
    ensures forall s, m :: s in subnets && m in search(Query(term, s)) ==>
              MatchRow(alert, s, m) in SubnetRows(term, search, alert, subnets)
    decreases |subnets|
  {
    if subnets != [] {
      var init, subnet := subnets[..|subnets| - 1], subnets[|subnets| - 1];
      SubnetRowsExactly(term, search, alert, init);
      MatchRowsExactly(alert, subnet, search(Query(term, subnet)));
      assert subnets == init + [subnet];
    }
  }

  /** Every row of a run comes from one (alert, subnet, match) triple and
      carries that alert's name and id; every triple has its row. */
  lemma {:induction false} RowsExactly(term: string, search: Search, alerts: seq<Alert>)
    ensures forall r :: r in Rows(term, search, alerts) ==>
              exists a, s, m :: a in alerts && s in a.ipFilter && m in search(Query(term, s))
                                && r == MatchRow(a, s, m)
    ensures forall a, s, m :: a in alerts && s in a.ipFilter && m in search(Query(term, s)) ==>
              MatchRow(a, s, m) in Rows(term, search, alerts)
    decreases |alerts|
  {
    if alerts != [] {
      var init, alert := alerts[..|alerts| - 1], alerts[|alerts| - 1];
      RowsExactly(term, search, init);
      SubnetRowsExactly(term, search, alert, alert.ipFilter);
      assert alerts == init + [alert];
    }
  }

  // ----- the csv.DictWriter row conversion -----

  /** The dict of lines 63-70. */
  function RowDict(r: Row): map<string, string>
  {
    map["name" := r.name, "alert_id" := r.alertId, "Subnet" := r.subnet,
        "ipaddress" := r.ipAddress, "server_type" := r.serverType, "P3P" := r.p3p]
  }

  /** `rowdict.keys() - fieldnames`: the keys the writer refuses. */
  function ExtraKeys(d: map<string, string>): set<string>
  {
    set k | k in d && k !in FieldNames
  }

  /** `rowdict.get(key, restval)` for each key of `names`, in order, with the
      writer's default `restval=""`. */
  function CellsOf(names: seq<string>, d: map<string, string>): (cells: seq<string>)
    ensures |cells| == |names|
    ensures forall i :: 0 <= i < |names| && names[i] in d ==> cells[i] == d[names[i]]
    ensures forall i :: 0 <= i < |names| && names[i] !in d ==> cells[i] == ""
  {
    if names == [] then []
    else [if names[0] in d then d[names[0]] else ""] + CellsOf(names[1..], d)
  }

  /** `DictWriter.writerow`'s conversion of a dict into cells: any key outside
      the field names is an error (the default `extrasaction="raise"`),
      otherwise one cell per field name. */
  function DictCells(d: map<string, string>): Result<seq<string>>
  {
    if ExtraKeys(d) != {} then Err("dict contains fields not in fieldnames")
    else Ok(CellsOf(FieldNames, d))
  }

  /** The writer accepts a dict exactly when every key is a field name. An
      accepted dict loses nothing: each of its values sits in the cell of its
      key's column, and the columns it lacks are empty. */
  lemma DictCellsSpec(d: map<string, string>)
    ensures DictCells(d).Ok? <==> forall k :: k in d ==> k in FieldNames
    ensures DictCells(d).Ok? ==> |DictCells(d).value| == |FieldNames|
    ensures DictCells(d).Ok? ==> forall k :: k in d ==>
              exists i :: 0 <= i < |FieldNames| && FieldNames[i] == k && DictCells(d).value[i] == d[k]
    ensures DictCells(d).Ok? ==> forall i :: 0 <= i < |FieldNames| && FieldNames[i] !in d ==>
              DictCells(d).value[i] == ""
  {
    if exists k :: k in d && k !in FieldNames {
      var k :| k in d && k !in FieldNames;
      assert k in ExtraKeys(d);
    } else {
      assert ExtraKeys(d) == {};
      var cells := CellsOf(FieldNames, d);
      forall k | k in d
        ensures exists i :: 0 <= i < |FieldNames| && FieldNames[i] == k && cells[i] == d[k]
      {
        var i :| 0 <= i < |FieldNames| && FieldNames[i] == k;
        assert cells[i] == d[k];
      }
    }
  }

  /** The record a data row becomes. */
  function RowRecord(r: Row): Record
  {
    Data([r.name, r.alertId, r.subnet, r.ipAddress, r.serverType, r.p3p])
  }

  /** The script's dict always has exactly the six field names as keys, so the
      writer never fails on it and lays out the row in column order. */
  lemma RowDictCells(r: Row)
    ensures RowDict(r).Keys == set f | f in FieldNames
    ensures DictCells(RowDict(r)) == Ok(RowRecord(r).cells)
  {
    RowDictKeys(r);
    var cells := DictCells(RowDict(r)).value;
    var expected := RowRecord(r).cells;
    forall i | 0 <= i < |FieldNames| ensures cells[i] == expected[i] {
      RowDictCell(r, i);
    }
    assert cells == expected;
  }

  lemma RowDictCell(r: Row, i: nat)
    requires i < |FieldNames| && DictCells(RowDict(r)).Ok?
    ensures DictCells(RowDict(r)).value[i] == RowRecord(r).cells[i]
  {
    var d := RowDict(r);
    assert DictCells(d).value[i] == d[FieldNames[i]];
    if i == 0 { assert FieldNames[i] == "name"; }
    else if i == 1 { assert FieldNames[i] == "alert_id"; }
    else if i == 2 { assert FieldNames[i] == "Subnet"; }
    else if i == 3 { assert FieldNames[i] == "ipaddress"; }
    else if i == 4 { assert FieldNames[i] == "server_type"; }
    else { assert FieldNames[i] == "P3P"; }
  }

  lemma RowDictKeys(r: Row)
    ensures RowDict(r).Keys == set f | f in FieldNames
    ensures forall k :: k in RowDict(r) ==> k in FieldNames
    ensures DictCells(RowDict(r)).Ok?
  {
    var d := RowDict(r);
    assert d.Keys == {"name", "alert_id", "Subnet", "ipaddress", "server_type", "P3P"};
    assert FieldNames[0] == "name" && FieldNames[1] == "alert_id" && FieldNames[2] == "Subnet";
    assert FieldNames[3] == "ipaddress" && FieldNames[4] == "server_type" && FieldNames[5] == "P3P";
    assert ExtraKeys(d) == {};
  }

  /** The records of a sequence of data rows, in order. */
  function Records(rows: seq<Row>): seq<Record>
  {
    if rows == [] then []
    else Records(rows[..|rows| - 1]) + [RowRecord(rows[|rows| - 1])]
  }

  lemma {:induction false} RecordsAt(rows: seq<Row>)
    ensures |Records(rows)| == |rows|
    ensures forall i :: 0 <= i < |rows| ==> Records(rows)[i] == RowRecord(rows[i])
    decreases |rows|
  {
    if rows != [] {
      var init := rows[..|rows| - 1];
      RecordsAt(init);
      assert forall i :: 0 <= i < |init| ==> init[i] == rows[i];
    }
  }

  lemma RecordsAppend(a: seq<Row>, b: seq<Row>)
    ensures Records(a + b) == Records(a) + Records(b)
  {
    RecordsAt(a);
    RecordsAt(b);
    RecordsAt(a + b);
  }

  // ----- the file after a run -----

  /** The header written when `tell()` is 0 at open. */
  function HeaderIfEmpty(existing: seq<Record>): seq<Record>
  {
    if existing == [] then [Header] else []
  }

  /** The file after a run: what it held, the header if it held nothing, and
      one record per row. */
  function Exported(existing: seq<Record>, term: string, search: Search, alerts: seq<Alert>): seq<Record>
  {
    existing + HeaderIfEmpty(existing) + Records(Rows(term, search, alerts))
  }

  function HeaderCount(records: seq<Record>): nat
  {
    if records == [] then 0 else (if records[0] == Header then 1 else 0) + HeaderCount(records[1..])
  }

  lemma {:induction false} HeaderCountAppend(a: seq<Record>, b: seq<Record>)
    ensures HeaderCount(a + b) == HeaderCount(a) + HeaderCount(b)
  {
    if a != [] {
      assert (a + b)[1..] == a[1..] + b;
      HeaderCountAppend(a[1..], b);
    } else {
      assert a + b == b;
    }
  }

  lemma {:induction false} NoHeaderAmongData(rows: seq<Row>)
    ensures HeaderCount(Records(rows)) == 0
    decreases |rows|
  {
    if rows != [] {
      NoHeaderAmongData(rows[..|rows| - 1]);
      HeaderCountAppend(Records(rows[..|rows| - 1]), [RowRecord(rows[|rows| - 1])]);
    }
  }

  /** What the file held is kept as it was, and a header added to an empty
      file comes first. */
  lemma ExportedKeepsExisting(existing: seq<Record>, term: string, search: Search, alerts: seq<Alert>)
    ensures existing <= Exported(existing, term, search, alerts)
    ensures existing == [] ==> Exported(existing, term, search, alerts)[0] == Header
  {
  }

  /** The run adds one header exactly when the file was empty, and none otherwise. */
  lemma HeaderOncePerFile(existing: seq<Record>, term: string, search: Search, alerts: seq<Alert>)
    ensures HeaderCount(Exported(existing, term, search, alerts))
         == HeaderCount(existing) + (if existing == [] then 1 else 0)
  {
    var rows := Rows(term, search, alerts);
    HeaderCountAppend(existing, HeaderIfEmpty(existing));
    HeaderCountAppend(existing + HeaderIfEmpty(existing), Records(rows));
    NoHeaderAmongData(rows);
    assert HeaderCount([Header]) == 1;
  }

  /** The file grows by the header, if it was empty, and one record per match. */
  lemma ExportedSize(existing: seq<Record>, term: string, search: Search, alerts: seq<Alert>)
    ensures |Exported(existing, term, search, alerts)|
         == |existing| + (if existing == [] then 1 else 0) + MatchCount(term, search, alerts)
  {
    RowCount(term, search, alerts);
    RecordsAt(Rows(term, search, alerts));
  }

  /** From `offset` on, `out` holds exactly one data record of six cells per
      row of `rows`, in row order. */
  ghost predicate RowRecordsFrom(out: seq<Record>, offset: nat, rows: seq<Row>) {
    && |out| == offset + |rows|
    && forall i :: offset <= i < |out| ==>
         out[i] == RowRecord(rows[i - offset]) && |out[i].cells| == |FieldNames|
  }

  /** Everything written after the header is a data record with the six cells of
      one row, the rows in their run order. */
  lemma WrittenRecordsAreRows(existing: seq<Record>, term: string, search: Search, alerts: seq<Alert>)
    ensures RowRecordsFrom(Exported(existing, term, search, alerts),
                           |existing| + |HeaderIfEmpty(existing)|, Rows(term, search, alerts))
  {
    var head := existing + HeaderIfEmpty(existing);
    var out := Exported(existing, term, search, alerts);
    assert out == head + Records(Rows(term, search, alerts));
    RecordsAfter(out, head, Rows(term, search, alerts));
  }

  /** The records appended after `head` are the rows' records, in row order. */
  lemma RecordsAfter(out: seq<Record>, head: seq<Record>, rows: seq<Row>)
    requires out == head + Records(rows)
    ensures RowRecordsFrom(out, |head|, rows)
  {
    RecordsAt(rows);
  }

  /** Two runs with the same term on a file that starts out empty leave exactly
      one header in it. */
  lemma TwoRunsOneHeader(term: string, first: Search, second: Search, alerts1: seq<Alert>, alerts2: seq<Alert>)
    ensures HeaderCount(Exported(Exported([], term, first, alerts1), term, second, alerts2)) == 1
  {
    HeaderOncePerFile([], term, first, alerts1);
    assert HeaderCount([]) == 0;
    ExportedKeepsExisting([], term, first, alerts1);
    HeaderOncePerFile(Exported([], term, first, alerts1), term, second, alerts2);
  }

  /** One alert with one subnet whose search has no match leaves a new file
      holding the header only. */
  lemma HeaderOnlyWithoutMatches(term: string, search: Search, alert: Alert)
    requires |alert.ipFilter| == 1 && search(Query(term, alert.ipFilter[0])) == []
    ensures Exported([], term, search, [alert]) == [Header]
  {
    var subnet := alert.ipFilter[0];
    assert [alert][..0] == [];
    assert alert.ipFilter[..0] == [];
    assert MatchRows(alert, subnet, search(Query(term, subnet))) == [];
    assert SubnetRows(term, search, alert, alert.ipFilter) == [];
    assert Rows(term, search, [alert]) == [];
    assert Records([]) == [];
  }

  // ----- the file as lines of text -----

  /** The cells a record puts on its line: `writeheader` writes the field names
      as an ordinary row, a data record its own cells. */
  function Line(rec: Record): seq<string>
  {
    match rec
    case Header => FieldNames
    case Data(cells) => cells
  }

  /** Number of lines that read like the header line. */
  function HeaderLineCount(records: seq<Record>): nat
  {
    if records == [] then 0
    else (if Line(records[0]) == FieldNames then 1 else 0) + HeaderLineCount(records[1..])
  }

  lemma {:induction false} HeaderLineCountAppend(a: seq<Record>, b: seq<Record>)
    ensures HeaderLineCount(a + b) == HeaderLineCount(a) + HeaderLineCount(b)
  {
    if a != [] {
      assert (a + b)[1..] == a[1..] + b;
      HeaderLineCountAppend(a[1..], b);
    } else {
      assert a + b == b;
    }
  }

  /** No row written for a match reads like the header line: its `server_type`
      cell is `N/A` or starts with `Server:`, never the text `server_type`. */
  lemma RowNeverReadsAsHeader(alert: Alert, subnet: string, m: Match)
    ensures Line(RowRecord(MatchRow(alert, subnet, m))) != FieldNames
  {
    var lines := Split(m.data);
    ServerAndP3PArePrefixes();
    FieldShape(lines, ServerPrefix);
    var cells := Line(RowRecord(MatchRow(alert, subnet, m)));
    assert cells[4] == FirstField(lines, ServerPrefix);
    assert FieldNames[4] == "server_type";
    assert cells[4] == Sentinel || cells[4][0] == 'S';
  }

  /** No row of a run reads like the header line. */
  lemma RunRowsNeverReadAsHeader(term: string, search: Search, alerts: seq<Alert>)
    ensures forall r :: r in Rows(term, search, alerts) ==> Line(RowRecord(r)) != FieldNames
  {
    RowsExactly(term, search, alerts);
    forall r | r in Rows(term, search, alerts)
      ensures Line(RowRecord(r)) != FieldNames
    {
      var a, s, m :| a in alerts && s in a.ipFilter && m in search(Query(term, s)) && r == MatchRow(a, s, m);
      RowNeverReadsAsHeader(a, s, m);
    }
  }

  lemma {:induction false} NoHeaderLineAmongRows(rows: seq<Row>)
    requires forall r :: r in rows ==> Line(RowRecord(r)) != FieldNames
    ensures HeaderLineCount(Records(rows)) == 0
    decreases |rows|
  {
    if rows != [] {
      var init := rows[..|rows| - 1];
      assert forall r :: r in init ==> r in rows;
      NoHeaderLineAmongRows(init);
      HeaderLineCountAppend(Records(init), [RowRecord(rows[|rows| - 1])]);
    }
  }

  /** Read as text, the file gains one header line exactly when it was empty:
      the rows a run writes never repeat the header's cells. */
  lemma HeaderLineOncePerFile(existing: seq<Record>, term: string, search: Search, alerts: seq<Alert>)
    ensures HeaderLineCount(Exported(existing, term, search, alerts))
         == HeaderLineCount(existing) + (if existing == [] then 1 else 0)
  {
    var rows := Rows(term, search, alerts);
    HeaderLineCountAppend(existing, HeaderIfEmpty(existing));
    HeaderLineCountAppend(existing + HeaderIfEmpty(existing), Records(rows));
    RunRowsNeverReadAsHeader(term, search, alerts);
    NoHeaderLineAmongRows(rows);
    assert HeaderLineCount([Header]) == 1;
  }

  // ----- the output file -----

  /** The output file opened in append mode, as the records it holds. */
  class CsvFile {
    const name: string
    var records: seq<Record>

    /** `open(name, mode="a")` on a file that holds `existing`. */
    constructor Open(name: string, existing: seq<Record>)
      ensures this.name == name && records == existing
    {
      this.name := name;
      records := existing;
    }

    /** `tell()`: append mode starts at the end, so 0 exactly when the file is empty. */
    method Tell() returns (position: nat)
      ensures position == 0 <==> records == []
    {
      position := |records|;
    }

    /** `writer.writeheader()` */
    method WriteHeader()
      modifies this
      ensures records == old(records) + [Header]
    {
      records := records + [Header];
    }

    /** `writer.writerow(row)`: fails, writing nothing, on a key outside the field names. */
    method WriteRow(row: map<string, string>) returns (ok: bool)
      modifies this
      ensures ok == DictCells(row).Ok?
      ensures records == if ok then old(records) + [Data(DictCells(row).value)] else old(records)
    {
      var cells := DictCells(row);
      ok := cells.Ok?;
      if ok {
        records := records + [Data(cells.value)];
      }
    }
  }

  lemma MatchRowsStep(alert: Alert, subnet: string, matches: seq<Match>, k: nat)
    requires k < |matches|
    ensures MatchRows(alert, subnet, matches[..k + 1])
         == MatchRows(alert, subnet, matches[..k]) + [MatchRow(alert, subnet, matches[k])]
  {
    assert matches[..k + 1][..k] == matches[..k];
  }

  lemma RecordsStep(rows: seq<Row>, row: Row)
    ensures Records(rows + [row]) == Records(rows) + [RowRecord(row)]
  {
    assert (rows + [row])[..|rows|] == rows;
  }

  lemma SubnetRowsStep(term: string, search: Search, alert: Alert, subnets: seq<string>, j: nat)
    requires j < |subnets|
    ensures SubnetRows(term, search, alert, subnets[..j + 1])
         == SubnetRows(term, search, alert, subnets[..j]) + MatchRows(alert, subnets[j], search(Query(term, subnets[j])))
  {
    assert subnets[..j + 1][..j] == subnets[..j];
  }

  lemma RowsStep(term: string, search: Search, alerts: seq<Alert>, i: nat)
    requires i < |alerts|
    ensures Rows(term, search, alerts[..i + 1])
         == Rows(term, search, alerts[..i]) + SubnetRows(term, search, alerts[i], alerts[i].ipFilter)
  {
    assert alerts[..i + 1][..i] == alerts[..i];
  }

  lemma AppendAssoc<T>(a: seq<T>, b: seq<T>, c: seq<T>)
    ensures a + b + c == a + (b + c)
  {
  }

  /** Lines 42-70: one row per match of one subnet, each with the two fields
      extracted from its banner. */
  method WriteMatches(file: CsvFile, alert: Alert, subnet: string, matches: seq<Match>)
    modifies file
    ensures file.records == old(file.records) + Records(MatchRows(alert, subnet, matches))
  {
    var k := 0;
    while k < |matches|
      invariant 0 <= k <= |matches|
      invariant file.records == old(file.records) + Records(MatchRows(alert, subnet, matches[..k]))
    {
      var m := matches[k];
      var server, p3p := ExtractFields(m.data);
      var row := Row(alert.name, alert.id, subnet, m.ipStr, server, p3p);
      ghost var done := MatchRows(alert, subnet, matches[..k]);
      RowDictCells(row);
      var _ := file.WriteRow(RowDict(row));
      MatchRowsStep(alert, subnet, matches, k);
      RecordsStep(done, row);
      AppendAssoc(old(file.records), Records(done), [RowRecord(row)]);
      k := k + 1;
    }
    assert matches[..k] == matches;
  }

  /** Lines 37-70: one search per subnet of the alert's IP filter, then its rows. */
  method WriteAlert(file: CsvFile, term: string, search: Search, alert: Alert)
    modifies file
    ensures file.records == old(file.records) + Records(SubnetRows(term, search, alert, alert.ipFilter))
  {
    var j := 0;
    while j < |alert.ipFilter|
      invariant 0 <= j <= |alert.ipFilter|
      invariant file.records == old(file.records) + Records(SubnetRows(term, search, alert, alert.ipFilter[..j]))
    {
      var subnet := alert.ipFilter[j];
      var matches := search(Query(term, subnet));
      ghost var done := SubnetRows(term, search, alert, alert.ipFilter[..j]);
      ghost var more := MatchRows(alert, subnet, matches);
      WriteMatches(file, alert, subnet, matches);
      SubnetRowsStep(term, search, alert, alert.ipFilter, j);
      RecordsAppend(done, more);
      AppendAssoc(old(file.records), Records(done), Records(more));
      j := j + 1;
    }
    assert alert.ipFilter[..j] == alert.ipFilter;
  }

  /** Lines 20-70: open `server-<term>.csv` holding `existing`, write the header if
      it is empty, then the rows of every alert in turn. */
  method Run(term: string, search: Search, alerts: seq<Alert>, existing: seq<Record>) returns (file: CsvFile)
    ensures file.name == FileName(term)
    ensures file.records == Exported(existing, term, search, alerts)
  {
    file := new CsvFile.Open(FileName(term), existing);
    var position := file.Tell();
    if position == 0 {
      file.WriteHeader();
    }
    ghost var start := file.records;
    var i := 0;
    while i < |alerts|
      invariant 0 <= i <= |alerts|
      invariant file.records == start + Records(Rows(term, search, alerts[..i]))
    {
      var alert := alerts[i];
      ghost var done := Rows(term, search, alerts[..i]);
      ghost var more := SubnetRows(term, search, alert, alert.ipFilter);
      WriteAlert(file, term, search, alert);
      RowsStep(term, search, alerts, i);
      RecordsAppend(done, more);
      AppendAssoc(start, Records(done), Records(more));
      i := i + 1;
    }
    assert alerts[..i] == alerts;
  }
}
