/**
 * Sequential runs of the store-changing operations from an empty database:
 * sign-up, the two upload commits, selection and deletion. In every store
 * such a run reaches when its counter writes land, each org's image keys lie
 * below its `imageCount`, so a commit always writes a fresh key.
 */
module Invariant {
  import opened Optional
  import opened Store
  import opened Upload
  import opened HistoryUpload
  import opened History
  import opened Signup
  import Views

  datatype Op =
    | SignUpOp(form: SignupForm, created: Option<Uid>, joinedOn: string)
    | DashboardOp(file: Option<string>, uploadFails: bool, uid: Uid, url: string, now: string, faults: Faults)
    | HistoryOp(state: FormState, file: Option<string>, uploadFails: bool, uid: Uid, url: string,
                text: string, now: string, faults: Faults)
    | SelectOp(org: OrgName, id: nat)
    | DeleteOp(org: OrgName, id: nat)

  function Apply(s: Store, op: Op): Store {
    match op
    case SignUpOp(form, created, joinedOn) => StoreAfter(s, SignUp(s, form, created, joinedOn))
    case DashboardOp(file, uploadFails, uid, url, now, faults) =>
      DashboardSubmit(s, file, uploadFails, uid, url, now, faults).store
    case HistoryOp(state, file, uploadFails, uid, url, text, now, faults) =>
      HistorySubmit(s, state, file, uploadFails, uid, url, text, now, faults).submitted.store
    case SelectOp(org, id) => Select(s, org, id)
    case DeleteOp(org, id) => Delete(s, org, id)
  }

  function Run(s: Store, ops: seq<Op>): Store
    decreases |ops|
  {
    if |ops| == 0 then s else Run(Apply(s, ops[0]), ops[1..])
  }

  /** The counter write of a commit lands (it is not lost to a failed update). */
  predicate CountWriteLands(op: Op) {
    match op
    case DashboardOp(_, _, _, _, _, faults) => !faults.countWriteFails
    case HistoryOp(_, _, _, _, _, _, _, faults) => !faults.countWriteFails
    case _ => true
  }

  /** Every org has a counter and all its image keys lie below it. */
  predicate CountsAhead(s: Store) {
    forall o :: o in s.orgs ==>
      s.orgs[o].imageCount.Some? && forall k :: k in s.orgs[o].images ==> k < s.orgs[o].imageCount.value
  }

  /** Every user record names an existing org that lists the user as a member. */
  predicate MembersHaveOrgs(s: Store) {
    forall u :: u in s.users ==>
      s.users[u].organization in s.orgs && u in s.orgs[s.users[u].organization].users
  }

  predicate Inv(s: Store) {
    CountsAhead(s) && MembersHaveOrgs(s)
  }

  /** Under the invariant the key a commit writes is free: no record is overwritten. */
  lemma CommitWritesFreshKey(s: Store, uid: Uid, url: string, v: Variant, faults: Faults)
    requires Inv(s)
    requires Target(s, uid).Some? && !faults.recordWriteFails
    ensures var (org, c) := Target(s, uid).value;
      var after := Commit(s, uid, url, v, faults).orgs[org].images;
      && c !in s.orgs[org].images
      && |after| == |s.orgs[org].images| + 1
      && (forall k :: k in s.orgs[org].images ==> k in after && after[k] == s.orgs[org].images[k])
  {
    var (org, c) := Target(s, uid).value;
    var after := Commit(s, uid, url, v, faults).orgs[org].images;
    assert c !in s.orgs[org].images;
    assert after.Keys == s.orgs[org].images.Keys + {c};
    assert |after.Keys| == |s.orgs[org].images.Keys| + 1;
  }

  lemma CommitKeepsInv(s: Store, uid: Uid, url: string, v: Variant, faults: Faults)
    requires Inv(s) && !faults.countWriteFails
    ensures Inv(Commit(s, uid, url, v, faults))
  {
    var r := Commit(s, uid, url, v, faults);
    if Target(s, uid).Some? && !faults.recordWriteFails {
      var (org, c) := Target(s, uid).value;
      assert forall k :: k in r.orgs[org].images ==> k < c + 1;
    }
  }

  lemma SignUpKeepsInv(s: Store, form: SignupForm, created: Option<Uid>, joinedOn: string)
    requires Inv(s)
    ensures Inv(StoreAfter(s, SignUp(s, form, created, joinedOn)))
  {
    var res := SignUp(s, form, created, joinedOn);
    if res.Registered? {
      var r := res.store;
      var org := form.organization.value;
      forall u | u in r.users
        ensures r.users[u].organization in r.orgs && u in r.orgs[r.users[u].organization].users
      {
        if u != res.uid {
          var o := s.users[u].organization;
          assert r.users[u] == s.users[u];
          if o == org {
            assert u in s.orgs[org].users;
          }
        }
      }
    }
  }

  lemma DeleteKeepsInv(s: Store, org: OrgName, id: nat)
    requires Inv(s)
    ensures Inv(Delete(s, org, id))
  {
    var r := Delete(s, org, id);
    if org in s.orgs {
      assert !IsEmptyNode(s.orgs[org].(images := s.orgs[org].images - {id}));
      assert r.orgs.Keys == s.orgs.Keys;
    }
  }

  lemma SelectKeepsInv(s: Store, org: OrgName, id: nat)
    requires Inv(s)
    ensures Inv(Select(s, org, id))
  {
  }

  lemma ApplyKeepsInv(s: Store, op: Op)
    requires Inv(s) && CountWriteLands(op)
    ensures Inv(Apply(s, op))
  {
    match op
    case SignUpOp(form, created, joinedOn) => SignUpKeepsInv(s, form, created, joinedOn);
    case DashboardOp(file, uploadFails, uid, url, now, faults) =>
      CommitKeepsInv(s, uid, url, DashboardRecord(now), faults);
    case HistoryOp(state, file, uploadFails, uid, url, text, now, faults) =>
      CommitKeepsInv(s, uid, url, HistoryRecord(now, state.title, state.eventDate), faults);
    case SelectOp(org, id) => SelectKeepsInv(s, org, id);
    case DeleteOp(org, id) => DeleteKeepsInv(s, org, id);
  }

  lemma {:induction false} RunKeepsInv(s: Store, ops: seq<Op>)
    requires Inv(s)
    requires forall i :: 0 <= i < |ops| ==> CountWriteLands(ops[i])
    ensures Inv(Run(s, ops))
    decreases |ops|
  {
    if |ops| > 0 {
      ApplyKeepsInv(s, ops[0]);
      RunKeepsInv(Apply(s, ops[0]), ops[1..]);
    }
  }

  /**
   * In every store reached from an empty database by operations whose
   * counter writes land, image keys lie below the counter, so the next
   * commit never overwrites an existing record.
   */
  lemma ReachableStoresKeepCountsAhead(ops: seq<Op>)
    requires forall i :: 0 <= i < |ops| ==> CountWriteLands(ops[i])
    ensures CountsAhead(Run(EmptyStore, ops))
    ensures MembersHaveOrgs(Run(EmptyStore, ops))
  {
    RunKeepsInv(EmptyStore, ops);
  }

  /**
   * Selection and deletion never add image keys or touch a counter, and
   * under the invariant no operation removes an org or lowers its counter.
   */
  lemma ApplyNeverLowersCounters(s: Store, op: Op, o: OrgName)
    requires Inv(s) && o in s.orgs
    ensures var r := Apply(s, op);
      && o in r.orgs
      && r.orgs[o].imageCount.value >= s.orgs[o].imageCount.value
      && (op.SelectOp? || op.DeleteOp? ==>
            r.orgs[o].imageCount == s.orgs[o].imageCount && r.orgs[o].images.Keys <= s.orgs[o].images.Keys)
  {
    match op
    case SignUpOp(form, created, joinedOn) => SignUpKeepsExistingOrgs(s, form, created, joinedOn, o);
    case DashboardOp(_, _, _, _, _, _) =>
    case HistoryOp(_, _, _, _, _, _, _, _) =>
    case SelectOp(org, id) =>
    case DeleteOp(org, id) =>
      if o == org {
        assert !IsEmptyNode(s.orgs[org].(images := s.orgs[org].images - {id}));
      }
  }

  /**
   * The displayed document count follows the records, not the counter:
   * deleting a present record lowers it by one while `imageCount` stays.
   */
  lemma DeleteLowersDisplayedCount(s: Store, org: OrgName, id: nat)
    requires Inv(s) && org in s.orgs && id in s.orgs[org].images
    ensures var r := Delete(s, org, id);
      && Views.DisplayedCount(r, org) == Views.DisplayedCount(s, org) - 1
      && r.orgs[org].imageCount == s.orgs[org].imageCount
  {
    var r := Delete(s, org, id);
    assert !IsEmptyNode(s.orgs[org].(images := s.orgs[org].images - {id}));
    assert r.orgs[org].images.Keys == s.orgs[org].images.Keys - {id};
  }

  /**
   * When the counter update of a commit fails after its record was written,
   * the counter still names that record's key, and the next commit to the
   * same org replaces it.
   */
  lemma LostCountWriteLetsNextCommitOverwrite(s: Store, uid: Uid, url1: string, v1: Variant,
                                              url2: string, v2: Variant)
    requires Target(s, uid).Some?
    ensures var (org, c) := Target(s, uid).value;
      var s1 := Commit(s, uid, url1, v1, Faults(false, true));
      var s2 := Commit(s1, uid, url2, v2, NoFaults);
      && c in s1.orgs[org].images
      && !CountsAhead(s1)
      && Target(s1, uid) == Target(s, uid)
      && s2.orgs[org].images[c] == NewRecord(v2, url2, s.users[uid], uid)
  {
    var (org, c) := Target(s, uid).value;
    var s1 := Commit(s, uid, url1, v1, Faults(false, true));
    assert c in s1.orgs[org].images && s1.orgs[org].imageCount == Some(c);
  }
}
