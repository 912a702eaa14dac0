/**
 * The realtime database as the app sees it: `users/<uid>` and
 * `organizations/<org>` with the organization's counter, image records and
 * member records. Every record field the app may leave unwritten is optional.
 */
module Store {
  import opened Optional

  type Uid = string
  type OrgName = string

  /** `users/<uid>`, written by sign-up. */
  datatype UserRec = UserRec(
    firstName: string,
    lastName: string,
    email: string,
    organization: OrgName,
    uid: Uid,
    joinedOn: string,
    role: string)

  /** `organizations/<org>/users/<uid>`, written by sign-up. */
  datatype MemberRec = MemberRec(
    email: string,
    uid: Uid,
    firstName: string,
    lastName: string,
    joinedOn: string,
    role: string)

  /**
   * `organizations/<org>/images/<n>`. The Dashboard upload writes
   * `dateofUpload` (lower-case o) and no title or event date; the
   * DocHistory upload writes `dateOfUpload`, `title` and `eventDate`;
   * only selection writes `priority`.
   */
  datatype ImageRec = ImageRec(
    imageURL: string,
    firstName: string,
    email: string,
    uid: Uid,
    dateOfUpload: Option<string>,
    dateofUpload: Option<string>,
    title: Option<string>,
    eventDate: Option<string>,
    priority: Option<bool>)

  /** `organizations/<org>`. */
  datatype Org = Org(
    imageCount: Option<nat>,
    images: map<nat, ImageRec>,
    users: map<Uid, MemberRec>)

  datatype Store = Store(
    users: map<Uid, UserRec>,
    orgs: map<OrgName, Org>)

  const EmptyStore: Store := Store(map[], map[])

  /** The database keeps no empty nodes: an org with no child is absent. */
  predicate IsEmptyNode(o: Org) {
    o.imageCount.None? && o.images == map[] && o.users == map[]
  }
}
