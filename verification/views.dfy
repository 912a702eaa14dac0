/**
 * The dashboard's derived views: the count of documents and the member
 * table with admins first.
 */
module Views {
  import opened Optional
  import opened Store

  /**
   * `fetchImageCount`: the number of keys under `images`. A missing org
   * leaves the state null; an org without `images` makes `Object.keys`
   * throw, which is caught and also leaves it null.
   */
  function FetchImageCount(s: Store, org: OrgName): (r: Option<nat>)
    ensures r.Some? <==> org in s.orgs && s.orgs[org].images != map[]
    ensures r.Some? ==> r.value == |s.orgs[org].images| > 0
  {
    if org !in s.orgs then None
    else if s.orgs[org].images == map[] then None
    else Some(|s.orgs[org].images|)
  }

  /** The number shown: the fetched count, or `0` while it is null. */
  function DisplayedCount(s: Store, org: OrgName): (r: nat)
    ensures org in s.orgs ==> r == |s.orgs[org].images|
    ensures org !in s.orgs ==> r == 0
  {
    FetchImageCount(s, org).ValueOr(0)
  }

  /** One row of the member table; `id` is the record's `uid` field, not its key. */
  datatype MemberRow = MemberRow(
    id: Uid,
    firstName: string,
    lastName: string,
    email: string,
    role: string,
    joinedOn: string)

  function MemberRowOf(m: MemberRec): MemberRow {
    MemberRow(m.uid, m.firstName, m.lastName, m.email, m.role, m.joinedOn)
  }

  /** `order` lists every key of `users` exactly once: the order the database delivers them in. */
  predicate Enumerates(order: seq<Uid>, users: map<Uid, MemberRec>) {
    && (forall i :: 0 <= i < |order| ==> order[i] in users)
    && (forall i, j :: 0 <= i < j < |order| ==> order[i] != order[j])
    && (forall u :: u in users ==> u in order)
  }

  /** The fetched rows, one per member, in delivery order. */
  function MemberRows(order: seq<Uid>, users: map<Uid, MemberRec>): (rows: seq<MemberRow>)
    requires forall i :: 0 <= i < |order| ==> order[i] in users
    ensures |rows| == |order|
    ensures forall i :: 0 <= i < |order| ==> rows[i] == MemberRowOf(users[order[i]])
  {
    if |order| == 0 then [] else [MemberRowOf(users[order[0]])] + MemberRows(order[1..], users)
  }

  predicate IsAdmin(row: MemberRow) {
    row.role == "admin"
  }

  /** Every admin row precedes every other row. */
  predicate AdminsFirst(rows: seq<MemberRow>) {
    forall i, j :: 0 <= i < j < |rows| && IsAdmin(rows[j]) ==> IsAdmin(rows[i])
  }

  function Admins(rows: seq<MemberRow>): (r: seq<MemberRow>)
    ensures forall i :: 0 <= i < |r| ==> IsAdmin(r[i])
  {
    if |rows| == 0 then []
    else if IsAdmin(rows[0]) then [rows[0]] + Admins(rows[1..])
    else Admins(rows[1..])
  }

  function Others(rows: seq<MemberRow>): (r: seq<MemberRow>)
    ensures forall i :: 0 <= i < |r| ==> !IsAdmin(r[i])
  {
    if |rows| == 0 then []
    else if IsAdmin(rows[0]) then Others(rows[1..])
    else [rows[0]] + Others(rows[1..])
  }

  lemma {:induction false} SplitIsPermutation(rows: seq<MemberRow>)
    ensures multiset(Admins(rows)) + multiset(Others(rows)) == multiset(rows)
  {
    if |rows| > 0 {
      var head, tail := rows[0], rows[1..];
      SplitIsPermutation(tail);
      assert rows == [head] + tail;
      assert multiset(rows) == multiset{head} + multiset(tail);
      if IsAdmin(head) {
        assert Admins(rows) == [head] + Admins(tail);
        assert Others(rows) == Others(tail);
      } else {
        assert Admins(rows) == Admins(tail);
        assert Others(rows) == [head] + Others(tail);
      }
    }
  }

  /**
   * `usersData.sort(...)` with the admin-first comparator. The comparator
   * answers -1 whenever its first argument is an admin, so it is not
   * consistent on two admins and the engine's order is not pinned down; what
   * is stated is only that the result is a permutation with admins first.
   */
  function SortAdminsFirst(rows: seq<MemberRow>): (r: seq<MemberRow>)
    ensures multiset(r) == multiset(rows)
    ensures AdminsFirst(r)
  {
    SplitIsPermutation(rows);
    var r := Admins(rows) + Others(rows);
    assert multiset(r) == multiset(Admins(rows)) + multiset(Others(rows));
    r
  }

  /** The comparator of the member sort. */
  function AdminCompare(a: MemberRow, b: MemberRow): int {
    if IsAdmin(a) then -1 else if IsAdmin(b) then 1 else 0
  }

  /** Two admins each compare before the other: the comparator is inconsistent. */
  lemma AdminCompareInconsistent(a: MemberRow, b: MemberRow)
    requires IsAdmin(a) && IsAdmin(b)
    ensures AdminCompare(a, b) < 0 && AdminCompare(b, a) < 0
  {
  }

  /**
   * `fetchUsers`: no org or no `users` node leaves the list empty; otherwise
   * one row per member, admins first.
   */
  function FetchMembers(s: Store, org: OrgName, order: seq<Uid>): (r: seq<MemberRow>)
    requires org in s.orgs ==> Enumerates(order, s.orgs[org].users)
    ensures org !in s.orgs ==> r == []
    ensures org in s.orgs ==>
      multiset(r) == multiset(MemberRows(order, s.orgs[org].users)) && AdminsFirst(r)
    ensures |r| == (if org in s.orgs then |order| else 0)
  {
    if org !in s.orgs then []
    else
      var r := SortAdminsFirst(MemberRows(order, s.orgs[org].users));
      assert |r| == |multiset(r)|;
      r
  }

  /** Every member has a row whose id is that member's `uid` field. */
  lemma EveryMemberListed(s: Store, org: OrgName, order: seq<Uid>, u: Uid)
    requires org in s.orgs && Enumerates(order, s.orgs[org].users)
    requires u in s.orgs[org].users
    ensures MemberRowOf(s.orgs[org].users[u]) in FetchMembers(s, org, order)
  {
    var users := s.orgs[org].users;
    var rows := MemberRows(order, users);
    var i :| 0 <= i < |order| && order[i] == u;
    assert rows[i] == MemberRowOf(users[u]);
    assert rows[i] in multiset(FetchMembers(s, org, order));
  }
}
