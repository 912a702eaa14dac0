/**
 * The document-history table of an organization: selecting a record as the
 * priority document, deleting a record, and the listing it shows (rows sorted
 * by event date, the highlighted selected record).
 */
module History {
  import opened Optional
  import opened Store
  import opened Keys
  import opened Text

  /** The store with the `images` node of `org` replaced by `images`. */
  function WithImages(s: Store, org: OrgName, images: map<nat, ImageRec>): (r: Store)
    requires org in s.orgs
    ensures r.users == s.users && r.orgs.Keys == s.orgs.Keys
  {
    s.(orgs := s.orgs[org := s.orgs[org].(images := images)])
  }

  /** The keys whose record has `priority` set to true. */
  function Flagged(images: map<nat, ImageRec>): set<nat> {
    set k | k in images && images[k].priority == Some(true)
  }

  /** `rec` with its `priority` field cleared: everything selection does not touch. */
  function Unflagged(rec: ImageRec): ImageRec {
    rec.(priority := None)
  }

  /**
   * `handleSelectImage(id)`: every record of the org gets `priority` equal
   * to whether its key is `id`; the update merges, so other fields stay.
   */
  function Select(s: Store, org: OrgName, id: nat): (r: Store)
    ensures r.users == s.users && r.orgs.Keys == s.orgs.Keys
    ensures forall o :: o in s.orgs && o != org ==> r.orgs[o] == s.orgs[o]
    ensures org in s.orgs ==>
      && r.orgs[org].imageCount == s.orgs[org].imageCount
      && r.orgs[org].users == s.orgs[org].users
      && r.orgs[org].images.Keys == s.orgs[org].images.Keys
      && (forall k :: k in r.orgs[org].images ==>
            && r.orgs[org].images[k].priority == Some(k == id)
            && Unflagged(r.orgs[org].images[k]) == Unflagged(s.orgs[org].images[k]))
  {
    if org !in s.orgs then s
    else
      var images := s.orgs[org].images;
      WithImages(s, org, map k | k in images :: images[k].(priority := Some(k == id)))
  }

  /** After a selection exactly the selected key is flagged, if it exists, and nothing otherwise. */
  lemma SelectFlagsOnlyId(s: Store, org: OrgName, id: nat)
    requires org in s.orgs
    ensures Flagged(Select(s, org, id).orgs[org].images) ==
      (if id in s.orgs[org].images then {id} else {})
  {
    var after := Select(s, org, id).orgs[org].images;
    if id in s.orgs[org].images {
      assert id in Flagged(after);
    }
  }

  /** At most one record is the priority document after a selection. */
  lemma SelectAtMostOne(s: Store, org: OrgName, id: nat, k1: nat, k2: nat)
    requires org in s.orgs
    requires k1 in Flagged(Select(s, org, id).orgs[org].images)
    requires k2 in Flagged(Select(s, org, id).orgs[org].images)
    ensures k1 == k2 == id
  {
    SelectFlagsOnlyId(s, org, id);
  }

  /** Selecting the same id twice gives the same store as selecting it once. */
  lemma SelectIdempotent(s: Store, org: OrgName, id: nat)
    ensures Select(Select(s, org, id), org, id) == Select(s, org, id)
  {
    var once := Select(s, org, id);
    var twice := Select(once, org, id);
    if org in s.orgs {
      assert twice.orgs[org].images == once.orgs[org].images;
      assert twice.orgs[org] == once.orgs[org];
    }
    assert twice.orgs == once.orgs;
  }

  /**
   * `deleteImage(id)`: removes `images/<id>` and nothing else; a node left
   * without children disappears, as the database keeps no empty nodes.
   */
  function Delete(s: Store, org: OrgName, id: nat): (r: Store)
    ensures r.users == s.users
    ensures forall o :: o in s.orgs && o != org ==> o in r.orgs && r.orgs[o] == s.orgs[o]
    ensures org !in s.orgs ==> r == s
    ensures org in s.orgs ==>
      var o := s.orgs[org].(images := s.orgs[org].images - {id});
      if IsEmptyNode(o) then r.orgs == s.orgs - {org} else r.orgs == s.orgs[org := o]
  {
    if org !in s.orgs then s
    else
      var o := s.orgs[org].(images := s.orgs[org].images - {id});
      if IsEmptyNode(o) then s.(orgs := s.orgs - {org})
      else s.(orgs := s.orgs[org := o])
  }

  /** One row of the history table. */
  datatype ImageRow = ImageRow(
    id: nat,
    uploadedBy: string,
    email: string,
    view: string,
    title: Option<string>,
    date: Option<string>,
    eventDate: Option<string>)

  function RowOf(key: nat, rec: ImageRec): ImageRow {
    ImageRow(key, rec.firstName, rec.email, rec.imageURL, rec.title, rec.dateOfUpload, rec.eventDate)
  }

  /** The rows for the keys `ks`, in that order. */
  function RowsFor(ks: seq<nat>, images: map<nat, ImageRec>): (rows: seq<ImageRow>)
    requires forall i :: 0 <= i < |ks| ==> ks[i] in images
    ensures |rows| == |ks|
    ensures forall i :: 0 <= i < |ks| ==> rows[i].id == ks[i] && rows[i] == RowOf(ks[i], images[ks[i]])
  {
    if |ks| == 0 then [] else [RowOf(ks[0], images[ks[0]])] + RowsFor(ks[1..], images)
  }

  /** One row per record, in the database's key order, fields copied from the record. */
  function Rows(images: map<nat, ImageRec>): (rows: seq<ImageRow>)
    ensures |rows| == |images|
    ensures forall i, j :: 0 <= i < j < |rows| ==> rows[i].id < rows[j].id
    ensures forall i :: 0 <= i < |rows| ==> rows[i].id in images && rows[i] == RowOf(rows[i].id, images[rows[i].id])
  {
    RowsFor(SortedKeys(images.Keys), images)
  }

  /** Every record has its row: the listing covers the whole `images` node. */
  lemma RowsCoverRecords(images: map<nat, ImageRec>, k: nat)
    requires k in images
    ensures exists i :: 0 <= i < |Rows(images)| && Rows(images)[i].id == k
  {
    var ks := SortedKeys(images.Keys);
    var rows := Rows(images);
    var i :| 0 <= i < |ks| && ks[i] == k;
    assert rows[i] == RowsFor(ks, images)[i] == RowOf(ks[i], images[ks[i]]);
  }

  /** A calendar day as `new Date(year, month - 1, day)` sees it. */
  datatype Day = Day(year: int, month: int, day: int)

  function DigitValue(c: char): int {
    c as int - '0' as int
  }

  /** JavaScript's `Date` constructor reads years 0 to 99 as 1900 to 1999. */
  function EffectiveYear(y: int): int {
    if 0 <= y <= 99 then 1900 + y else y
  }

  predicate IsLeapYear(y: int) {
    y % 4 == 0 && (y % 100 != 0 || y % 400 == 0)
  }

  function DaysInMonth(y: int, m: int): int {
    if m == 2 then (if IsLeapYear(y) then 29 else 28)
    else if m == 4 || m == 6 || m == 9 || m == 11 then 30
    else 31
  }

  /** The value `parseInt` reads from a string of decimal digits. */
  function DecimalValue(ds: string): nat
    requires forall i :: 0 <= i < |ds| ==> IsDigit(ds[i])
  {
    if |ds| == 0 then 0
    else
      assert IsDigit(ds[|ds| - 1]);
      10 * DecimalValue(ds[..|ds| - 1]) + DigitValue(ds[|ds| - 1])
  }

  /** `s` has the `DD/MM/YYYY` shape: two digits, `/`, two digits, `/`, four digits. */
  predicate DateShape(s: string) {
    && |s| == 10 && s[2] == '/' && s[5] == '/'
    && IsDigit(s[0]) && IsDigit(s[1]) && IsDigit(s[3]) && IsDigit(s[4])
    && IsDigit(s[6]) && IsDigit(s[7]) && IsDigit(s[8]) && IsDigit(s[9])
  }

  /**
   * The day `new Date(year, month - 1, day)` is asked for, from the three
   * `/`-separated digit groups read by `parseInt`.
   */
  function DayOf(s: string): Day
    requires DateShape(s)
  {
    Day(EffectiveYear(DecimalValue(s[6..10])), DecimalValue(s[3..5]), DecimalValue(s[0..2]))
  }

  /** A day that exists in the calendar, so `Date` does not roll it over. */
  predicate RealDay(d: Day) {
    1 <= d.month <= 12 && 1 <= d.day <= DaysInMonth(d.year, d.month)
  }

  /** The digit groups of a `DD/MM/YYYY` string, read digit by digit. */
  lemma DateDigits(s: string)
    requires DateShape(s)
    ensures DecimalValue(s[0..2]) == 10 * DigitValue(s[0]) + DigitValue(s[1])
    ensures DecimalValue(s[3..5]) == 10 * DigitValue(s[3]) + DigitValue(s[4])
    ensures DecimalValue(s[6..10]) == 1000 * DigitValue(s[6]) + 100 * DigitValue(s[7])
                                      + 10 * DigitValue(s[8]) + DigitValue(s[9])
  {
    var y := s[6..10];
    assert DecimalValue(y[..1]) == DigitValue(s[6]);
    assert DecimalValue(y[..2]) == 10 * DigitValue(s[6]) + DigitValue(s[7]) by {
      assert y[..2][..1] == y[..1];
    }
    assert DecimalValue(y[..3]) == 10 * DecimalValue(y[..2]) + DigitValue(s[8]) by {
      assert y[..3][..2] == y[..2];
    }
    assert DecimalValue(y) == 10 * DecimalValue(y[..3]) + DigitValue(s[9]);
    assert DecimalValue(s[0..2]) == 10 * DecimalValue(s[0..1]) + DigitValue(s[1]) by {
      assert s[0..2][..1] == s[0..1];
    }
    assert DecimalValue(s[3..5]) == 10 * DecimalValue(s[3..4]) + DigitValue(s[4]) by {
      assert s[3..5][..1] == s[3..4];
    }
  }

  /**
   * `parseDate` on a well-formed `DD/MM/YYYY` string naming a real calendar
   * day; `None` for every other string, whose JavaScript reading (NaN or a
   * normalised date) is not modelled.
   */
  function ParseDate(s: string): (r: Option<Day>)
    ensures r.Some? ==> |s| == 10 && s[2] == '/' && s[5] == '/'
    ensures r.Some? ==> 1 <= r.value.month <= 12 && 1 <= r.value.day <= 31
    ensures r.Some? <==> DateShape(s) && RealDay(DayOf(s))
    ensures r.Some? ==> r.value == DayOf(s)
  {
    if DateShape(s) then
      DateDigits(s);
      var d := 10 * DigitValue(s[0]) + DigitValue(s[1]);
      var m := 10 * DigitValue(s[3]) + DigitValue(s[4]);
      var y := EffectiveYear(1000 * DigitValue(s[6]) + 100 * DigitValue(s[7])
                             + 10 * DigitValue(s[8]) + DigitValue(s[9]));
      if 1 <= m <= 12 && 1 <= d <= DaysInMonth(y, m) then Some(Day(y, m, d)) else None
    else None
  }

  /** `a` is the same day as `b` or later: `dateA - dateB >= 0` for valid days. */
  predicate NotEarlier(a: Day, b: Day) {
    || a.year > b.year
    || (a.year == b.year && a.month > b.month)
    || (a.year == b.year && a.month == b.month && a.day >= b.day)
  }

  /** A present event date that reads as a valid day. */
  predicate ValidEventDate(d: Option<string>) {
    d.Some? && ParseDate(d.value).Some?
  }

  predicate HasValidDate(row: ImageRow) {
    ValidEventDate(row.eventDate)
  }

  /** The day `parseDate` reads from a row's event date; only meaningful when `HasValidDate`. */
  function EventDay(row: ImageRow): Day {
    if HasValidDate(row) then ParseDate(row.eventDate.value).value else Day(0, 0, 0)
  }

  /** Rows in descending order of `key`. */
  predicate SortedDesc(rows: seq<ImageRow>, key: ImageRow -> Day) {
    forall i, j :: 0 <= i < j < |rows| ==> NotEarlier(key(rows[i]), key(rows[j]))
  }

  function Insert(x: ImageRow, sorted: seq<ImageRow>, key: ImageRow -> Day): (r: seq<ImageRow>)
    requires SortedDesc(sorted, key)
    ensures SortedDesc(r, key)
    ensures multiset(r) == multiset(sorted) + multiset{x}
    ensures r[0] == x || r[0] == sorted[0]
  {
    if |sorted| == 0 then [x]
    else if NotEarlier(key(x), key(sorted[0])) then [x] + sorted
    else
      var head, tail := sorted[0], sorted[1..];
      var rest := Insert(x, tail, key);
      assert sorted == [head] + tail;
      assert NotEarlier(key(head), key(rest[0]));
      var r := [head] + rest;
      forall i, j | 0 <= i < j < |r|
        ensures NotEarlier(key(r[i]), key(r[j]))
      {
        if i == 0 && j > 1 {
          assert NotEarlier(key(rest[0]), key(rest[j - 1]));
        }
      }
      r
  }

  /** Sorts by `key`, latest first; a permutation of the input. */
  function SortDesc(rows: seq<ImageRow>, key: ImageRow -> Day): (r: seq<ImageRow>)
    ensures SortedDesc(r, key)
    ensures multiset(r) == multiset(rows)
  {
    if |rows| == 0 then []
    else
      assert rows == [rows[0]] + rows[1..];
      Insert(rows[0], SortDesc(rows[1..], key), key)
  }

  /** `imgData.sort((a, b) => parseDate(b.eventDate) - parseDate(a.eventDate))`. */
  function SortByEventDate(rows: seq<ImageRow>): (r: seq<ImageRow>)
    ensures SortedDesc(r, EventDay)
    ensures multiset(r) == multiset(rows)
  {
    SortDesc(rows, EventDay)
  }

  /**
   * The key of the last record, in key order, whose `priority` is true: the
   * largest flagged key.
   */
  function SelectedId(images: map<nat, ImageRec>): (r: Option<nat>)
    ensures r.None? <==> Flagged(images) == {}
    ensures r.Some? ==> r.value in Flagged(images) && forall k :: k in Flagged(images) ==> k <= r.value
  {
    LastFlagged(SortedKeys(images.Keys), images)
  }

  function LastFlagged(ks: seq<nat>, images: map<nat, ImageRec>): (r: Option<nat>)
    requires forall i :: 0 <= i < |ks| ==> ks[i] in images
    requires forall i, j :: 0 <= i < j < |ks| ==> ks[i] < ks[j]
    requires forall k :: k in images ==> k in ks
    ensures r.None? <==> Flagged(images) == {}
    ensures r.Some? ==> r.value in Flagged(images) && forall k :: k in Flagged(images) ==> k <= r.value
  {
    LastFlaggedIn(ks, images, |ks|)
  }

  /** The last flagged key among the first `n` of `ks`. */
  function LastFlaggedIn(ks: seq<nat>, images: map<nat, ImageRec>, n: nat): (r: Option<nat>)
    requires n <= |ks|
    requires forall i :: 0 <= i < |ks| ==> ks[i] in images
    requires forall i, j :: 0 <= i < j < |ks| ==> ks[i] < ks[j]
    ensures r.None? <==> forall i :: 0 <= i < n ==> ks[i] !in Flagged(images)
    ensures r.Some? ==> r.value in Flagged(images)
    ensures r.Some? ==> exists i :: (0 <= i < n && ks[i] == r.value
      && forall j :: i < j < n ==> ks[j] !in Flagged(images))
  {
    if n == 0 then None
    else if images[ks[n - 1]].priority == Some(true) then Some(ks[n - 1])
    else LastFlaggedIn(ks, images, n - 1)
  }

  /** What the history table shows: its rows and the highlighted record. */
  datatype HistoryView = HistoryView(rows: seq<ImageRow>, selected: Option<nat>)

  /** Every event date stored in the org is a valid `DD/MM/YYYY` day. */
  predicate EventDatesValid(s: Store, org: OrgName) {
    org in s.orgs ==> DatesValidOrAbsent(s.orgs[org].images)
  }

  predicate DatesValidOrAbsent(images: map<nat, ImageRec>) {
    forall k :: k in images && images[k].eventDate.Some? ==> ValidEventDate(images[k].eventDate)
  }

  /** With no record lacking an event date, every row carries a valid one. */
  lemma RowsHaveValidDates(images: map<nat, ImageRec>)
    requires DatesValidOrAbsent(images)
    requires forall k :: k in images ==> images[k].eventDate.Some?
    ensures forall i :: 0 <= i < |Rows(images)| ==> HasValidDate(Rows(images)[i])
  {
    var rows := Rows(images);
    forall i | 0 <= i < |rows|
      ensures HasValidDate(rows[i])
    {
      var k := rows[i].id;
      assert rows[i].eventDate == images[k].eventDate;
    }
  }

  /**
   * The sort calls `parseDate` on each compared row, and with two rows or
   * more every row is compared: a row without an event date then throws,
   * and the caught error leaves both the rows and the selection empty.
   */
  predicate ListingThrows(images: map<nat, ImageRec>) {
    |images| >= 2 && exists k :: k in images && images[k].eventDate.None?
  }

  /** `fetchImages`: build the rows, sort them, then find the selected record. */
  function FetchHistory(s: Store, org: OrgName): (v: HistoryView)
    requires EventDatesValid(s, org)
    ensures org !in s.orgs ==> v == HistoryView([], None)
    ensures org in s.orgs && ListingThrows(s.orgs[org].images) ==> v == HistoryView([], None)
    ensures org in s.orgs && !ListingThrows(s.orgs[org].images) ==>
      && multiset(v.rows) == multiset(Rows(s.orgs[org].images))
      && v.selected == SelectedId(s.orgs[org].images)
    ensures org in s.orgs && |s.orgs[org].images| >= 2 && !ListingThrows(s.orgs[org].images) ==>
      SortedDesc(v.rows, EventDay)
  {
    if org !in s.orgs then HistoryView([], None)
    else
      var images := s.orgs[org].images;
      if ListingThrows(images) then HistoryView([], None)
      else
        var rows := Rows(images);
        if |rows| < 2 then HistoryView(rows, SelectedId(images))
        else
          HistoryView(SortByEventDate(rows), SelectedId(images))
  }

  /**
   * When the sort runs, every row it orders has a valid event date, so the
   * order is the descending order of real calendar days.
   */
  lemma SortedRowsHaveValidDates(s: Store, org: OrgName)
    requires EventDatesValid(s, org)
    requires org in s.orgs && |s.orgs[org].images| >= 2 && !ListingThrows(s.orgs[org].images)
    ensures var v := FetchHistory(s, org);
      forall i :: 0 <= i < |v.rows| ==> HasValidDate(v.rows[i])
  {
    var images := s.orgs[org].images;
    assert forall k :: k in images ==> images[k].eventDate.Some?;
    RowsHaveValidDates(images);
    PermutationKeepsValidDates(FetchHistory(s, org).rows, Rows(images));
  }

  lemma PermutationKeepsValidDates(a: seq<ImageRow>, b: seq<ImageRow>)
    requires multiset(a) == multiset(b)
    requires forall j :: 0 <= j < |b| ==> HasValidDate(b[j])
    ensures forall i :: 0 <= i < |a| ==> HasValidDate(a[i])
  {
    forall i | 0 <= i < |a|
      ensures HasValidDate(a[i])
    {
      assert a[i] in multiset(b);
      var j :| 0 <= j < |b| && b[j] == a[i];
    }
  }

  /** After selecting a present record, the listing highlights exactly that record. */
  lemma SelectThenListingHighlights(s: Store, org: OrgName, id: nat)
    requires org in s.orgs && id in s.orgs[org].images
    requires EventDatesValid(s, org)
    requires !ListingThrows(s.orgs[org].images)
    ensures EventDatesValid(Select(s, org, id), org)
    ensures FetchHistory(Select(s, org, id), org).selected == Some(id)
  {
    var before := s.orgs[org].images;
    var after := Select(s, org, id).orgs[org].images;
    SelectFlagsOnlyId(s, org, id);
    forall k | k in after
      ensures after[k].eventDate == before[k].eventDate
    {
      assert Unflagged(after[k]) == Unflagged(before[k]);
    }
    assert !ListingThrows(after);
    assert SelectedId(after) == Some(id);
  }
}
