/** The data side of `debouncedDisplayHistory`: keep the records that have
    both a date and a player list, most recent date first. */
module History {
  import opened Results
  import opened Order
  import opened Database

  /** One listed record: the key it is stored under, its date and players. */
  datatype HistoryRow = HistoryRow(key: string, date: string, players: seq<string>)

  /** `data && data.date && data.players`: the date must be a non-empty
      string and the player list present. */
  predicate Listed(rec: StoredRecord) {
    rec.date.Some? && rec.date.value != [] && rec.players.Some?
  }

  function RowOf(key: string, rec: StoredRecord): HistoryRow
    requires Listed(rec)
  {
    HistoryRow(key, rec.date.value, rec.players.value)
  }

  /** `a` is listed before `b`: a later date first; equal dates keep the
      ascending key order in which the database returns the entries, since
      the sort is stable. */
  predicate Before(a: HistoryRow, b: HistoryRow) {
    Less(b.date, a.date) || (a.date == b.date && Less(a.key, b.key))
  }

  predicate InHistoryOrder(rows: seq<HistoryRow>) {
    forall i, j :: 0 <= i < j < |rows| ==> Before(rows[i], rows[j])
  }

  lemma BeforeTransitive(a: HistoryRow, b: HistoryRow, c: HistoryRow)
    requires Before(a, b) && Before(b, c)
    ensures Before(a, c)
  {
    if Less(b.date, a.date) && Less(c.date, b.date) {
      LessTransitive(c.date, b.date, a.date);
    } else if a.date == b.date && b.date == c.date {
      LessTransitive(a.key, b.key, c.key);
    }
  }

  lemma BeforeTotal(a: HistoryRow, b: HistoryRow)
    requires a.key != b.key
    ensures Before(a, b) || Before(b, a)
  {
    LessTotal(a.key, b.key);
    if a.date != b.date {
      LessTotal(a.date, b.date);
    }
  }

  lemma BeforeAsymmetric(a: HistoryRow, b: HistoryRow)
    requires Before(a, b)
    ensures !Before(b, a)
  {
    if Before(b, a) {
      BeforeTransitive(a, b, a);
      LessIrreflexive(a.date);
      LessIrreflexive(a.key);
    }
  }

  /** Place `x` among rows already in history order. */
  function InsertRow(x: HistoryRow, rows: seq<HistoryRow>): (r: seq<HistoryRow>)
    requires InHistoryOrder(rows)
    requires forall y :: y in rows ==> y.key != x.key
    ensures InHistoryOrder(r)
    ensures forall y :: y in r <==> y == x || y in rows
    decreases |rows|
  {
    if rows == [] then [x]
    else if Before(x, rows[0]) then
      assert forall j :: 0 <= j < |rows| ==> Before(x, rows[j]) by {
        forall j | 1 <= j < |rows| ensures Before(x, rows[j]) {
          BeforeTransitive(x, rows[0], rows[j]);
        }
      }
      [x] + rows
    else
      var t := InsertRow(x, rows[1..]);
      assert Before(rows[0], x) by { BeforeTotal(x, rows[0]); }
      assert forall y :: y in t ==> Before(rows[0], y);
      [rows[0]] + t
  }

  /** `rows` is the history listing of `attendance`: exactly the listed
      records, each shown as stored, most recent date first. */
  ghost predicate IsHistoryOf(attendance: map<string, StoredRecord>, rows: seq<HistoryRow>) {
    && (forall row :: row in rows ==>
          row.key in attendance && Listed(attendance[row.key]) && row == RowOf(row.key, attendance[row.key]))
    && (forall k :: k in attendance && Listed(attendance[k]) ==> RowOf(k, attendance[k]) in rows)
    && InHistoryOrder(rows)
  }

  /** Build the listing one stored entry at a time. */
  method ListHistory(attendance: map<string, StoredRecord>) returns (rows: seq<HistoryRow>)
    ensures forall row :: row in rows ==>
      row.key in attendance && Listed(attendance[row.key]) && row == RowOf(row.key, attendance[row.key])
    ensures forall k :: k in attendance && Listed(attendance[k]) ==> RowOf(k, attendance[k]) in rows
    ensures forall i, j :: 0 <= i < j < |rows| ==> LessEq(rows[j].date, rows[i].date)
    ensures InHistoryOrder(rows)
  {
    rows := [];
    var pending := attendance.Keys;
    while pending != {}
      invariant pending <= attendance.Keys
      invariant forall row :: row in rows ==>
        row.key in attendance.Keys - pending && Listed(attendance[row.key])
        && row == RowOf(row.key, attendance[row.key])
      invariant forall k :: k in attendance.Keys - pending && Listed(attendance[k]) ==> RowOf(k, attendance[k]) in rows
      invariant InHistoryOrder(rows)
      decreases pending
    {
      var k :| k in pending;
      pending := pending - {k};
      if Listed(attendance[k]) {
        rows := InsertRow(RowOf(k, attendance[k]), rows);
      }
    }
  }

  /** The listing is determined by the stored records alone. */
  lemma {:induction false} HistoryOrderUnique(a: seq<HistoryRow>, b: seq<HistoryRow>)
    requires InHistoryOrder(a) && InHistoryOrder(b)
    requires forall row :: row in a <==> row in b
    ensures a == b
    decreases |a|
  {
    if a == [] {
      assert forall i :: 0 <= i < |b| ==> b[i] in a;
    } else {
      assert b != [] by { assert a[0] in b; }
      if a[0] != b[0] {
        assert a[0] in b && b[0] in a;
        var i :| 0 <= i < |b| && b[i] == a[0];
        var j :| 0 <= j < |a| && a[j] == b[0];
        assert Before(b[0], a[0]) && Before(a[0], b[0]);
        BeforeAsymmetric(a[0], b[0]);
      }
      forall row
        ensures row in a[1..] <==> row in b[1..]
      {
        if row in a[1..] {
          var i :| 0 <= i < |a[1..]| && a[1..][i] == row;
          BeforeAsymmetric(a[0], a[i + 1]);
          assert row != a[0];
          assert row in b;
        }
        if row in b[1..] {
          var i :| 0 <= i < |b[1..]| && b[1..][i] == row;
          BeforeAsymmetric(b[0], b[i + 1]);
          assert row != b[0];
          assert row in a;
        }
      }
      HistoryOrderUnique(a[1..], b[1..]);
      assert a == [a[0]] + a[1..] && b == [b[0]] + b[1..];
    }
  }

  /** Two listings of the same records are the same listing. */
  lemma HistoryUnique(attendance: map<string, StoredRecord>, a: seq<HistoryRow>, b: seq<HistoryRow>)
    requires IsHistoryOf(attendance, a) && IsHistoryOf(attendance, b)
    ensures a == b
  {
    HistoryOrderUnique(a, b);
  }

  /** "2024-01-01" sorts before "2024-02-01": they first differ at the
      month digit. */
  lemma JanuaryBeforeFebruary()
    ensures Less("2024-01-01", "2024-02-01")
  {
    var jan, feb := "2024-01-01", "2024-02-01";
    assert jan[..6] == feb[..6] && jan[6] < feb[6];
    assert Less(jan[6..], feb[6..]);
    assert Less(jan[5..], feb[5..]) by { assert jan[5..][1..] == jan[6..] && feb[5..][1..] == feb[6..]; }
    assert Less(jan[4..], feb[4..]) by { assert jan[4..][1..] == jan[5..] && feb[4..][1..] == feb[5..]; }
    assert Less(jan[3..], feb[3..]) by { assert jan[3..][1..] == jan[4..] && feb[3..][1..] == feb[4..]; }
    assert Less(jan[2..], feb[2..]) by { assert jan[2..][1..] == jan[3..] && feb[2..][1..] == feb[3..]; }
    assert Less(jan[1..], feb[1..]) by { assert jan[1..][1..] == jan[2..] && feb[1..][1..] == feb[2..]; }
  }

  /** With records for 2024-01-01 and 2024-02-01, February is listed first. */
  lemma LatestFirstExample(rows: seq<HistoryRow>)
    requires IsHistoryOf(map["2024-01-01" := StoredRecord(Some("2024-01-01"), Some(["Alice"])),
                             "2024-02-01" := StoredRecord(Some("2024-02-01"), Some(["Bob"]))], rows)
    ensures rows == [HistoryRow("2024-02-01", "2024-02-01", ["Bob"]),
                     HistoryRow("2024-01-01", "2024-01-01", ["Alice"])]
  {
    var jan := HistoryRow("2024-01-01", "2024-01-01", ["Alice"]);
    var feb := HistoryRow("2024-02-01", "2024-02-01", ["Bob"]);
    var expected := [feb, jan];
    assert InHistoryOrder(expected) by {
      JanuaryBeforeFebruary();
    }
    assert forall row :: row in rows <==> row in expected by {
      var att := map["2024-01-01" := StoredRecord(Some("2024-01-01"), Some(["Alice"])),
                     "2024-02-01" := StoredRecord(Some("2024-02-01"), Some(["Bob"]))];
      assert RowOf("2024-01-01", att["2024-01-01"]) == jan;
      assert RowOf("2024-02-01", att["2024-02-01"]) == feb;
      forall row
        ensures row in rows <==> row in expected
      {
        if row in rows {
          assert row.key == "2024-01-01" || row.key == "2024-02-01";
        }
      }
    }
    HistoryOrderUnique(rows, expected);
  }
}
