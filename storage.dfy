/** The record store of presencia60/js/storage.js. Its document keeps one
    attendance record per date key, with the user's settings. Each call of
    the source reads the whole document from the browser; only `setRecord`
    and a `deleteRecord` that finds its record write it back, and the
    queries never write. Here the document is read once, when the store is
    loaded, and then lives in the fields of a `RecordStore`. */
module Storage {
  import opened Common
  import opened DateKeys

  /** The `type` of a record. A document written by some other version of
      the application may hold any string there, kept in `Other`. */
  datatype AttendanceType = Office | Remote | License | Other(name: string)

  /** One day's record: its type, when it was written (an ISO timestamp)
      and, for a license, its category. */
  datatype Record = Record(kind: AttendanceType, timestamp: string, licenseType: Option<string>)

  datatype Settings = Settings(targetPercentage: real, userId: string)

  datatype Document = Document(records: map<string, Record>, settings: Settings, createdAt: string)

  /** What the browser holds under `presencia60_data`, as `JSON.parse` sees it. */
  datatype StoredDocument = Missing | Unparseable | Parsed(doc: Document)

  /** The `targetPercentage` of a fresh document. */
  const DefaultTargetPercentage: real := 0.6

  /** `getDefaultData()`. `userToken` stands for the random base-36
      characters after `user_`, and `now` for the creation timestamp. */
  function DefaultData(userToken: string, now: string): (d: Document)
    ensures d.records == map[]
    ensures d.settings.targetPercentage == DefaultTargetPercentage
    ensures StartsWith(d.settings.userId, "user_") && d.settings.userId[5..] == userToken
    ensures d.createdAt == now
  {
    Document(map[], Settings(DefaultTargetPercentage, "user_" + userToken), now)
  }

  /** `getData()`: the stored document, or a fresh one when there is none or
      it does not parse. */
  function LoadDocument(stored: StoredDocument, userToken: string, now: string): (d: Document)
    ensures stored.Parsed? ==> d == stored.doc
    ensures !stored.Parsed? ==> d.records == map[] && d.settings.targetPercentage == DefaultTargetPercentage
  {
    match stored
    case Parsed(doc) => doc
    case _ => DefaultData(userToken, now)
  }

  /** A JavaScript value that is neither null nor the empty string. */
  predicate Truthy(s: Option<string>)
  {
    s.Some? && s.value != ""
  }

  /** The record `setRecord(dateStr, type, licenseType)` files: the category
      is kept only on a license, and only when it is given and not empty. */
  function NewRecord(kind: AttendanceType, licenseType: Option<string>, now: string): (r: Record)
    ensures r.kind == kind && r.timestamp == now
    ensures r.licenseType.Some? <==> kind == License && Truthy(licenseType)
    ensures r.licenseType.Some? ==> r.licenseType == licenseType
  {
    Record(kind, now, if kind == License && Truthy(licenseType) then licenseType else None)
  }

  /** `records[dateStr] || null`. */
  function Lookup(records: map<string, Record>, date: string): (r: Option<Record>)
    ensures r.Some? <==> date in records
    ensures r.Some? ==> r.value == records[date]
  {
    if date in records then Some(records[date]) else None
  }

  /** Filing a record and reading it back gives the record, and the other
      dates keep what they had. */
  lemma FiledRecordIsRead(records: map<string, Record>, date: string, kind: AttendanceType,
                          licenseType: Option<string>, now: string, other: string)
    ensures var filed := records[date := NewRecord(kind, licenseType, now)];
            && Lookup(filed, date).Some?
            && Lookup(filed, date).value.kind == kind
            && (other != date ==> Lookup(filed, other) == Lookup(records, other))
  {
  }

  /** After deleting a date nothing is read there, the other dates keep what
      they had, and deleting again finds nothing. */
  lemma DeletedRecordIsGone(records: map<string, Record>, date: string, other: string)
    ensures Lookup(records - {date}, date) == None
    ensures other != date ==> Lookup(records - {date}, other) == Lookup(records, other)
    ensures (records - {date}) - {date} == records - {date}
  {
  }

  /** The records `getMonthRecords(year, month)` returns: those whose key
      starts with the month's prefix. */
  function MonthRecords(records: map<string, Record>, year: int, month: int): (r: map<string, Record>)
    ensures forall k :: k in r <==> k in records && StartsWith(k, MonthPrefix(year, month))
    ensures forall k :: k in r ==> r[k] == records[k]
  {
    map k | k in records && StartsWith(k, MonthPrefix(year, month)) :: records[k]
  }

  /** For the key of a date, the month's records hold what the whole store
      holds when the date lies in that month, and nothing otherwise. */
  lemma DateInMonthRecords(records: map<string, Record>, d: Calendar.Date, year: int, month: int)
    requires 0 <= d.year <= 9999 && 1000 <= year <= 9999 && 0 <= month < 12
    ensures Lookup(MonthRecords(records, year, month), DateKey(d))
            == if d.year == year && d.month == month then Lookup(records, DateKey(d)) else None
  {
    KeyInMonth(d, year, month);
  }

  /** The keys among `keys` whose record has the given type. */
  function KeysOfKind(m: map<string, Record>, keys: set<string>, kind: AttendanceType): set<string>
  {
    set k | k in keys && k in m && m[k].kind == kind
  }

  /** The keys among `keys` whose record has a type outside office, remote
      and license. */
  function KeysOfOtherKind(m: map<string, Record>, keys: set<string>): set<string>
  {
    set k | k in keys && k in m && m[k].kind.Other?
  }

  lemma KeysOfKindAdd(m: map<string, Record>, keys: set<string>, k: string, kind: AttendanceType)
    requires k in m && k !in keys
    ensures |KeysOfKind(m, keys + {k}, kind)| == |KeysOfKind(m, keys, kind)| + if m[k].kind == kind then 1 else 0
  {
    if m[k].kind == kind {
      assert KeysOfKind(m, keys + {k}, kind) == KeysOfKind(m, keys, kind) + {k};
    } else {
      assert KeysOfKind(m, keys + {k}, kind) == KeysOfKind(m, keys, kind);
    }
  }

  /** The result of `getMonthStats`. */
  datatype MonthStats = MonthStats(officeDays: nat, remoteDays: nat, licenseDays: nat, totalRegistered: nat)

  /** The counts over the records of `keys`. */
  function Tally(m: map<string, Record>, keys: set<string>): MonthStats
  {
    var office := |KeysOfKind(m, keys, Office)|;
    var remote := |KeysOfKind(m, keys, Remote)|;
    MonthStats(office, remote, |KeysOfKind(m, keys, License)|, office + remote)
  }

  /** The counts `getMonthStats` makes over a month's records: each record
      is counted once, under its type, and records of any other type are
      not counted. */
  function StatsOf(m: map<string, Record>): (s: MonthStats)
    ensures s.totalRegistered == s.officeDays + s.remoteDays
    ensures s.officeDays + s.remoteDays + s.licenseDays + |KeysOfOtherKind(m, m.Keys)| == |m|
    ensures s.officeDays + s.remoteDays + s.licenseDays <= |m|
  {
    KindsPartition(m);
    Tally(m, m.Keys)
  }

  /** The loop of `getMonthStats`: one pass over a month's records, counting
      each under its type. */
  method CountMonth(m: map<string, Record>) returns (stats: MonthStats)
    ensures stats == StatsOf(m)
  {
    var officeDays: nat, remoteDays: nat, licenseDays: nat := 0, 0, 0;
    var seen: set<string> := {};
    while seen != m.Keys
      invariant seen <= m.Keys
      invariant officeDays == |KeysOfKind(m, seen, Office)|
      invariant remoteDays == |KeysOfKind(m, seen, Remote)|
      invariant licenseDays == |KeysOfKind(m, seen, License)|
      decreases |m.Keys - seen|
    {
      var date :| date in m.Keys - seen;
      KeysOfKindAdd(m, seen, date, Office);
      KeysOfKindAdd(m, seen, date, Remote);
      KeysOfKindAdd(m, seen, date, License);
      var record := m[date];
      if record.kind == Office {
        officeDays := officeDays + 1;
      } else if record.kind == Remote {
        remoteDays := remoteDays + 1;
      } else if record.kind == License {
        licenseDays := licenseDays + 1;
      }
      seen := seen + {date};
    }
    stats := MonthStats(officeDays, remoteDays, licenseDays, officeDays + remoteDays);
  }


  lemma DisjointUnion(a: set<string>, b: set<string>)
    requires a !! b
    ensures |a + b| == |a| + |b|
  {
    assert a * b == {};
  }

  /** Every key has exactly one type, so the four groups of keys split the map. */
  lemma KindsPartition(m: map<string, Record>)
    ensures |KeysOfKind(m, m.Keys, Office)| + |KeysOfKind(m, m.Keys, Remote)|
            + |KeysOfKind(m, m.Keys, License)| + |KeysOfOtherKind(m, m.Keys)| == |m|
  {
    var o, r, l, x := KeysOfKind(m, m.Keys, Office), KeysOfKind(m, m.Keys, Remote),
                      KeysOfKind(m, m.Keys, License), KeysOfOtherKind(m, m.Keys);
    forall k | k in m.Keys ensures k in o + r + l + x {
      match m[k].kind
      case Office => assert k in o;
      case Remote => assert k in r;
      case License => assert k in l;
      case Other(_) => assert k in x;
    }
    assert m.Keys == o + r + l + x;
    DisjointUnion(o, r);
    DisjointUnion(o + r, l);
    DisjointUnion(o + r + l, x);
  }

  lemma KindCountAfterFiling(m: map<string, Record>, k: string, r: Record, kind: AttendanceType)
    ensures |KeysOfKind(m[k := r], m[k := r].Keys, kind)|
            == |KeysOfKind(m - {k}, (m - {k}).Keys, kind)| + (if r.kind == kind then 1 else 0)
  {
    var rest, filed := m - {k}, m[k := r];
    assert KeysOfKind(filed, rest.Keys, kind) == KeysOfKind(rest, rest.Keys, kind);
    assert filed.Keys == rest.Keys + {k};
    KeysOfKindAdd(filed, rest.Keys, k, kind);
  }

  /** Filing a record under a key changes the month's counts by the record
      it replaces and the record it files, and by nothing else. */
  lemma {:induction false} StatsAfterFiling(m: map<string, Record>, k: string, r: Record)
    ensures var before, after := StatsOf(m - {k}), StatsOf(m[k := r]);
            && after.officeDays == before.officeDays + (if r.kind == Office then 1 else 0)
            && after.remoteDays == before.remoteDays + (if r.kind == Remote then 1 else 0)
            && after.licenseDays == before.licenseDays + (if r.kind == License then 1 else 0)
  {
    KindCountAfterFiling(m, k, r, Office);
    KindCountAfterFiling(m, k, r, Remote);
    KindCountAfterFiling(m, k, r, License);
  }

  /** An entry of `getMonthLicenses`. */
  datatype LicenseEntry = LicenseEntry(date: string, licenseType: string)

  /** `r.licenseType || 'Otro'`. */
  function LicenseLabel(r: Record): (shown: string)
    ensures shown != ""
    ensures shown != "Otro" ==> r.licenseType == Some(shown)
  {
    if Truthy(r.licenseType) then r.licenseType.value else "Otro"
  }

  /** A license filed with a category shows that category; one filed
      without shows 'Otro'. */
  lemma LabelOfFiledLicense(licenseType: Option<string>, now: string)
    ensures LicenseLabel(NewRecord(License, licenseType, now))
            == if Truthy(licenseType) then licenseType.value else "Otro"
  {
  }

  /** `getMonthLicenses` over a month's records: the license records, one
      entry each, by ascending date, with their category or 'Otro'. */
  function MonthLicenses(m: map<string, Record>): (r: seq<LicenseEntry>)
    ensures |r| == StatsOf(m).licenseDays
    ensures forall i :: 0 <= i < |r| ==>
              r[i].date in m && m[r[i].date].kind == License && r[i].licenseType == LicenseLabel(m[r[i].date])
    ensures forall k :: k in m && m[k].kind == License ==> exists i :: 0 <= i < |r| && r[i].date == k
    ensures forall i, j :: 0 <= i < j < |r| ==> Below(r[i].date, r[j].date)
  {
    var licensed := KeysOfKind(m, m.Keys, License);
    var dates := SortedStrings(licensed);
    assert forall i :: 0 <= i < |dates| ==> dates[i] in licensed;
    var entries := Entries(m, dates);
    EntriesComplete(m, dates, entries);
    entries
  }

  /** One entry per date, in the order of the dates. */
  function Entries(m: map<string, Record>, dates: seq<string>): (r: seq<LicenseEntry>)
    requires forall i :: 0 <= i < |dates| ==> dates[i] in m && m[dates[i]].kind == License
    ensures |r| == |dates|
    ensures forall i :: 0 <= i < |r| ==>
              r[i].date == dates[i] && r[i].date in m && m[r[i].date].kind == License
              && r[i].licenseType == LicenseLabel(m[r[i].date])
  {
    seq(|dates|, i requires 0 <= i < |dates| => LicenseEntry(dates[i], LicenseLabel(m[dates[i]])))
  }

  lemma EntriesComplete(m: map<string, Record>, dates: seq<string>, entries: seq<LicenseEntry>)
    requires forall k :: k in KeysOfKind(m, m.Keys, License) ==> k in dates
    requires |entries| == |dates| && forall i :: 0 <= i < |entries| ==> entries[i].date == dates[i]
    ensures forall k :: k in m && m[k].kind == License ==> exists i :: 0 <= i < |entries| && entries[i].date == k
  {
    forall k | k in m && m[k].kind == License
      ensures exists i :: 0 <= i < |entries| && entries[i].date == k
    {
      assert k in KeysOfKind(m, m.Keys, License);
      var i :| 0 <= i < |dates| && dates[i] == k;
      assert entries[i].date == k;
    }
  }

  /** The store: the document's records, settings and creation time. */
  class RecordStore {
    var records: map<string, Record>
    var settings: Settings
    var createdAt: string

    /** Reads the document the browser holds. */
    constructor Load(stored: StoredDocument, userToken: string, now: string)
      ensures Document(records, settings, createdAt) == LoadDocument(stored, userToken, now)
    {
      var doc := LoadDocument(stored, userToken, now);
      records := doc.records;
      settings := doc.settings;
      createdAt := doc.createdAt;
    }

    /** `getRecord(dateStr)`. */
    function GetRecord(date: string): (r: Option<Record>)
      reads this
      ensures r.Some? <==> date in records
      ensures r.Some? ==> r.value == records[date]
    {
      Lookup(records, date)
    }

    /** `setRecord(dateStr, type, licenseType)`: files a new record under the
        date, replacing any record there; it always reports success. */
    method SetRecord(date: string, kind: AttendanceType, licenseType: Option<string>, now: string)
      returns (saved: bool)
      modifies this
      ensures saved
      ensures records == old(records)[date := NewRecord(kind, licenseType, now)]
      ensures settings == old(settings) && createdAt == old(createdAt)
    {
      records := records[date := NewRecord(kind, licenseType, now)];
      saved := true;
    }

    /** `deleteRecord(dateStr)`: removes the date's record and reports
        whether there was one. */
    method DeleteRecord(date: string) returns (existed: bool)
      modifies this
      ensures existed <==> date in old(records)
      ensures records == old(records) - {date}
      ensures settings == old(settings) && createdAt == old(createdAt)
    {
      if date in records {
        records := records - {date};
        existed := true;
      } else {
        existed := false;
      }
    }

    /** `getMonthRecords(year, month)`. */
    method GetMonthRecords(year: int, month: int) returns (monthRecords: map<string, Record>)
      ensures monthRecords == MonthRecords(records, year, month)
    {
      var prefix := MonthPrefix(year, month);
      monthRecords := map[];
      var pending := records.Keys;
      while pending != {}
        invariant pending <= records.Keys
        invariant forall k :: k in monthRecords <==> k in records && k !in pending && StartsWith(k, prefix)
        invariant forall k :: k in monthRecords ==> monthRecords[k] == records[k]
        decreases |pending|
      {
        var date :| date in pending;
        if StartsWith(date, prefix) {
          monthRecords := monthRecords[date := records[date]];
        }
        pending := pending - {date};
      }
    }

    /** `getMonthStats(year, month)`. */
    method GetMonthStats(year: int, month: int) returns (stats: MonthStats)
      ensures stats == StatsOf(MonthRecords(records, year, month))
    {
      var m := GetMonthRecords(year, month);
      stats := CountMonth(m);
    }

    /** `getMonthLicenses(year, month)`: the month's licenses by ascending
        date, each with its category or 'Otro'. */
    function GetMonthLicenses(year: int, month: int): (r: seq<LicenseEntry>)
      reads this
      ensures forall i :: 0 <= i < |r| ==>
                && r[i].date in records && StartsWith(r[i].date, MonthPrefix(year, month))
                && records[r[i].date].kind == License
                && r[i].licenseType == LicenseLabel(records[r[i].date])
      ensures forall k :: k in records && StartsWith(k, MonthPrefix(year, month)) && records[k].kind == License
                ==> exists i :: 0 <= i < |r| && r[i].date == k
      ensures forall i, j :: 0 <= i < j < |r| ==> Below(r[i].date, r[j].date)
    {
      MonthLicenses(MonthRecords(records, year, month))
    }
  }
}
