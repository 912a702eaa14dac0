/**
 * Sign-up: field validation, then the account is created by the identity
 * provider and three database writes follow: the org node (only when
 * absent), `users/<uid>` and `organizations/<org>/users/<uid>`.
 */
module Signup {
  import opened Optional
  import opened Store

  /** The form fields; `None` is a field missing from the form data. */
  datatype SignupForm = SignupForm(
    firstName: Option<string>,
    lastName: Option<string>,
    email: Option<string>,
    password: Option<string>,
    organization: Option<string>)

  /** JavaScript truthiness of a form value: present and non-empty (white space counts). */
  predicate Filled(f: Option<string>) {
    f.Some? && f.value != ""
  }

  predicate AllFilled(form: SignupForm) {
    && Filled(form.firstName) && Filled(form.lastName) && Filled(form.email)
    && Filled(form.password) && Filled(form.organization)
  }

  const AdminRole: string := "admin"

  /** How a sign-up ended: rejected before any call, refused by the identity provider, or registered. */
  datatype SignupResult =
    | MissingFields
    | AuthRejected
    | Registered(uid: Uid, store: Store)

  /** The three writes for a new account `uid`. */
  function Register(s: Store, uid: Uid, first: string, last: string, email: string,
                    org: OrgName, joinedOn: string): (r: Store)
    ensures r.users.Keys == s.users.Keys + {uid}
    ensures r.orgs.Keys == s.orgs.Keys + {org}
    ensures forall u :: u in s.users && u != uid ==> r.users[u] == s.users[u]
    ensures forall o :: o in s.orgs && o != org ==> r.orgs[o] == s.orgs[o]
    ensures r.users[uid] == UserRec(first, last, email, org, uid, joinedOn, AdminRole)
    ensures r.orgs[org].users.Keys == (if org in s.orgs then s.orgs[org].users.Keys else {}) + {uid}
    ensures r.orgs[org].users[uid] == MemberRec(email, uid, first, last, joinedOn, AdminRole)
    ensures forall u :: org in s.orgs && u in s.orgs[org].users && u != uid ==>
      r.orgs[org].users[u] == s.orgs[org].users[u]
    ensures org in s.orgs ==>
      r.orgs[org].imageCount == s.orgs[org].imageCount && r.orgs[org].images == s.orgs[org].images
    ensures org !in s.orgs ==> r.orgs[org].imageCount == Some(0) && r.orgs[org].images == map[]
  {
    var o := if org in s.orgs then s.orgs[org] else Org(Some(0), map[], map[]);
    var user := UserRec(first, last, email, org, uid, joinedOn, AdminRole);
    var member := MemberRec(email, uid, first, last, joinedOn, AdminRole);
    Store(s.users[uid := user], s.orgs[org := o.(users := o.users[uid := member])])
  }

  /**
   * `handleSubmit`: `created` is the uid the identity provider assigns, or
   * `None` when it refuses the account; `joinedOn` is the formatted date.
   */
  function SignUp(s: Store, form: SignupForm, created: Option<Uid>, joinedOn: string): (r: SignupResult)
    ensures !AllFilled(form) <==> r.MissingFields?
    ensures AllFilled(form) && created.None? <==> r.AuthRejected?
    ensures r.Registered? ==> created == Some(r.uid)
    ensures r.Registered? ==>
      r.store == Register(s, r.uid, form.firstName.value, form.lastName.value, form.email.value,
                          form.organization.value, joinedOn)
  {
    if !AllFilled(form) then MissingFields
    else match created
      case None => AuthRejected
      case Some(uid) =>
        Registered(uid, Register(s, uid, form.firstName.value, form.lastName.value,
                                 form.email.value, form.organization.value, joinedOn))
  }

  /** The store after a sign-up: unchanged unless the account was registered. */
  function StoreAfter(s: Store, r: SignupResult): Store {
    if r.Registered? then r.store else s
  }

  /**
   * A registered user's record names an existing org that lists the user
   * as a member with the same identity fields, and the role is always admin.
   */
  lemma RegisteredUserBelongsToOrg(s: Store, form: SignupForm, created: Option<Uid>, joinedOn: string)
    requires SignUp(s, form, created, joinedOn).Registered?
    ensures var r := SignUp(s, form, created, joinedOn);
      var user := r.store.users[r.uid];
      && user.organization in r.store.orgs
      && r.uid in r.store.orgs[user.organization].users
      && var member := r.store.orgs[user.organization].users[r.uid];
      && member.email == user.email && member.uid == user.uid == r.uid
      && member.firstName == user.firstName && member.lastName == user.lastName
      && member.joinedOn == user.joinedOn && member.role == user.role == AdminRole
  {
  }

  /** Sign-up never resets or changes an existing org's counter or records. */
  lemma SignUpKeepsExistingOrgs(s: Store, form: SignupForm, created: Option<Uid>, joinedOn: string, o: OrgName)
    requires o in s.orgs
    ensures var r := StoreAfter(s, SignUp(s, form, created, joinedOn));
      o in r.orgs && r.orgs[o].imageCount == s.orgs[o].imageCount && r.orgs[o].images == s.orgs[o].images
  {
  }
}
