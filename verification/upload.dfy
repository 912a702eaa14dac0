/**
 * The upload commit of both handlers (Dashboard and DocHistory): after the
 * blob upload yields a download URL, read `users/<uid>`, read the org's
 * `imageCount` c, write the new record at `images/<c>`, then set
 * `imageCount` to c + 1.
 */
module Upload {
  import opened Optional
  import opened Store

  /** Which store writes fail; a failed write is caught and ends the handler. */
  datatype Faults = Faults(recordWriteFails: bool, countWriteFails: bool)

  const NoFaults: Faults := Faults(false, false)

  /** The fields each handler puts in the record besides the uploader's. */
  datatype Variant =
    | DashboardRecord(dateofUpload: string)
    | HistoryRecord(dateOfUpload: string, title: string, eventDate: string)

  /** The record a handler writes for an uploader whose user record is `user`. */
  function NewRecord(v: Variant, url: string, user: UserRec, uid: Uid): (r: ImageRec)
    ensures r.imageURL == url && r.firstName == user.firstName && r.email == user.email && r.uid == uid
    ensures r.priority.None?
    ensures v.DashboardRecord? ==>
      r.dateofUpload == Some(v.dateofUpload) && r.dateOfUpload.None? && r.title.None? && r.eventDate.None?
    ensures v.HistoryRecord? ==>
      && r.dateOfUpload == Some(v.dateOfUpload) && r.dateofUpload.None?
      && r.title == Some(v.title) && r.eventDate == Some(v.eventDate)
  {
    match v
    case DashboardRecord(d) =>
      ImageRec(url, user.firstName, user.email, uid, None, Some(d), None, None, None)
    case HistoryRecord(d, t, e) =>
      ImageRec(url, user.firstName, user.email, uid, Some(d), None, Some(t), Some(e), None)
  }

  /** The org and counter value a commit by `uid` targets, when both lookups succeed. */
  function Target(s: Store, uid: Uid): (r: Option<(OrgName, nat)>)
    ensures r.Some? <==>
      uid in s.users && s.users[uid].organization in s.orgs
      && s.orgs[s.users[uid].organization].imageCount.Some?
    ensures r.Some? ==>
      r.value.0 == s.users[uid].organization && s.orgs[r.value.0].imageCount == Some(r.value.1)
  {
    if uid !in s.users then None
    else
      var org := s.users[uid].organization;
      if org !in s.orgs then None
      else match s.orgs[org].imageCount
        case None => None
        case Some(c) => Some((org, c))
  }

  /** The store after the commit's database writes. */
  function Commit(s: Store, uid: Uid, url: string, v: Variant, faults: Faults): (r: Store)
    ensures r.users == s.users
    ensures r.orgs.Keys == s.orgs.Keys
    ensures Target(s, uid).None? || faults.recordWriteFails ==> r == s
    ensures forall o :: o in s.orgs && (Target(s, uid).None? || o != Target(s, uid).value.0) ==>
      r.orgs[o] == s.orgs[o]
    ensures Target(s, uid).Some? && !faults.recordWriteFails ==>
      var (org, c) := Target(s, uid).value;
      && r.orgs[org].users == s.orgs[org].users
      && r.orgs[org].images.Keys == s.orgs[org].images.Keys + {c}
      && r.orgs[org].images[c] == NewRecord(v, url, s.users[uid], uid)
      && (forall k :: k in s.orgs[org].images && k != c ==> r.orgs[org].images[k] == s.orgs[org].images[k])
      && r.orgs[org].imageCount == (if faults.countWriteFails then Some(c) else Some(c + 1))
  {
    match Target(s, uid)
    case None => s
    case Some((org, c)) =>
      if faults.recordWriteFails then s
      else
        var o := s.orgs[org];
        var rec := NewRecord(v, url, s.users[uid], uid);
        var written := o.(images := o.images[c := rec]);
        var bumped := if faults.countWriteFails then written else written.(imageCount := Some(c + 1));
        s.(orgs := s.orgs[org := bumped])
  }

  /** `images/<file name>`: the blob path; equal file names share one path. */
  function BlobPath(fileName: string): (r: string)
    ensures |r| == |fileName| + 7 && r[7..] == fileName
  {
    "images/" + fileName
  }

  lemma BlobPathCollides(a: string, b: string)
    ensures BlobPath(a) == BlobPath(b) <==> a == b
  {
    if BlobPath(a) == BlobPath(b) {
      assert a == BlobPath(a)[7..] == BlobPath(b)[7..] == b;
    }
  }

  /** What a submit did: the blob path it uploaded to, if any, and the resulting store. */
  datatype Submitted = Submitted(blob: Option<string>, store: Store)

  /**
   * Dashboard `handleSubmit`: with no selected file it returns at once; a
   * failed upload alerts and writes nothing; otherwise it commits a
   * Dashboard record stamped with `now`.
   */
  function DashboardSubmit(s: Store, file: Option<string>, uploadFails: bool,
                           uid: Uid, url: string, now: string, faults: Faults): (r: Submitted)
    ensures file.None? ==> r.blob.None? && r.store == s
    ensures file.Some? ==> r.blob == Some(BlobPath(file.value))
    ensures file.Some? && uploadFails ==> r.store == s
    ensures file.Some? && !uploadFails ==> r.store == Commit(s, uid, url, DashboardRecord(now), faults)
  {
    match file
    case None => Submitted(None, s)
    case Some(name) =>
      if uploadFails then Submitted(Some(BlobPath(name)), s)
      else Submitted(Some(BlobPath(name)), Commit(s, uid, url, DashboardRecord(now), faults))
  }
}

