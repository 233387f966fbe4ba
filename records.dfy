/** The persisted document of the FFPriv record store, the pure queries over it,
    and the facts about them that the store's operations rely on. */
module Records {

  datatype Option<+T> = None | Some(value: T)

  /** A clock reading, kept as the ISO-8601 text the store writes; the model never inspects it. */
  type Time = string

  const ACTIVE: string := "ativo"
  const INACTIVE: string := "inativo"
  const DEFAULT_ICON: string := "fas fa-star"
  const DEFAULT_PASSWORD: string := "admin123"

  datatype User = User(
    email: string,
    status: string,
    options: seq<string>,
    createdAt: Time,
    updatedAt: Time,
    lastAccess: Option<Time>)

  /** One entry of the option catalog. */
  datatype CatalogEntry = CatalogEntry(id: string, name: string, icon: string, enabled: bool)

  datatype AdminSettings = AdminSettings(adminPassword: string, createdAt: Time)

  /** The whole stored document. An imported document may lack its admin settings. */
  datatype Document = Document(
    users: seq<User>,
    options: seq<CatalogEntry>,
    adminSettings: Option<AdminSettings>)

  /** A backup after parsing: a field is None when it is missing or not an array. */
  datatype Parsed = Parsed(
    users: Option<seq<User>>,
    options: Option<seq<CatalogEntry>>,
    adminSettings: Option<AdminSettings>)

  /** The integer part of the statistics report, with the average as an exact ratio. */
  datatype Stats = Stats(
    totalUsers: nat,
    activeUsers: nat,
    inactiveUsers: nat,
    totalOptions: nat,
    enabledOptions: nat,
    averageOptionsPerUser: real)

  // ---------------------------------------------------------------- keys

  /** Some stored user has this email (the `some` scan). */
  predicate HasEmail(users: seq<User>, email: string): (r: bool)
    ensures r <==> email in (set u | u in users :: u.email)
  {
    exists k :: 0 <= k < |users| && users[k].email == email
  }

  /** Some catalog entry has this id (the `some` scan). */
  predicate HasOption(options: seq<CatalogEntry>, id: string): (r: bool)
    ensures r <==> id in (set o | o in options :: o.id)
  {
    exists k :: 0 <= k < |options| && options[k].id == id
  }

  predicate DistinctEmails(users: seq<User>) {
    forall i, j :: 0 <= i < j < |users| ==> users[i].email != users[j].email
  }

  predicate DistinctIds(options: seq<CatalogEntry>) {
    forall i, j :: 0 <= i < j < |options| ==> options[i].id != options[j].id
  }

  /** The store's key invariant: emails and catalog ids are unique. */
  predicate WellKeyed(d: Document) {
    DistinctEmails(d.users) && DistinctIds(d.options)
  }

  /** The document written when nothing is stored yet: no users, four enabled options. */
  function InitialData(now: Time): (d: Document)
    ensures d.users == [] && |d.options| == 4
    ensures forall k :: 0 <= k < |d.options| ==> d.options[k].enabled
    ensures WellKeyed(d)
    ensures HasOption(d.options, "color") && HasOption(d.options, "wallhack")
    ensures HasOption(d.options, "crosshair") && HasOption(d.options, "esp")
  {
    var opts := [
      CatalogEntry("color", "Color Aimbot", "fas fa-palette", true),
      CatalogEntry("wallhack", "Wallhack Visual", "fas fa-eye", true),
      CatalogEntry("crosshair", "Precision Crosshair", "fas fa-crosshairs", true),
      CatalogEntry("esp", "ESP System", "fas fa-shield-alt", true)
    ];
    assert opts[0].id == "color" && opts[1].id == "wallhack";
    assert opts[2].id == "crosshair" && opts[3].id == "esp";
    Document([], opts, Some(AdminSettings(DEFAULT_PASSWORD, now)))
  }

  // ---------------------------------------------------------------- lookups

  /** Index of the first user with this email (the `find`/`findIndex` scan). */
  function FindUser(users: seq<User>, email: string): (r: Option<nat>)
    ensures r.Some? <==> HasEmail(users, email)
    ensures r.Some? ==> r.value < |users| && users[r.value].email == email
    ensures r.Some? ==> forall k :: 0 <= k < r.value ==> users[k].email != email
  {
    if |users| == 0 then None
    else if users[0].email == email then Some(0)
    else match FindUser(users[1..], email)
      case None => None
      case Some(i) => Some(i + 1)
  }

  /** Index of the first catalog entry with this id. */
  function FindOption(options: seq<CatalogEntry>, id: string): (r: Option<nat>)
    ensures r.Some? <==> HasOption(options, id)
    ensures r.Some? ==> r.value < |options| && options[r.value].id == id
    ensures r.Some? ==> forall k :: 0 <= k < r.value ==> options[k].id != id
  {
    if |options| == 0 then None
    else if options[0].id == id then Some(0)
    else match FindOption(options[1..], id)
      case None => None
      case Some(i) => Some(i + 1)
  }

  /** Under unique emails, the first match is the only match. */
  lemma FindUserUnique(users: seq<User>, email: string, k: nat)
    requires DistinctEmails(users)
    requires k < |users| && users[k].email == email
    ensures FindUser(users, email) == Some(k)
  {
  }

  /** Lookup by email only looks at the emails, position by position. */
  lemma FindUserSameEmails(a: seq<User>, b: seq<User>, email: string)
    requires |a| == |b|
    requires forall k :: 0 <= k < |a| ==> a[k].email == b[k].email
    ensures FindUser(a, email) == FindUser(b, email)
  {
  }

  function GetUserByEmail(d: Document, email: string): (r: Option<User>)
    ensures r.None? <==> !HasEmail(d.users, email)
    ensures r.Some? ==> r.value.email == email
    ensures r.Some? ==> exists k :: 0 <= k < |d.users| && d.users[k] == r.value &&
                          forall j :: 0 <= j < k ==> d.users[j].email != email
  {
    match FindUser(d.users, email)
    case None => None
    case Some(i) => Some(d.users[i])
  }

  /** The user's option ids, or none at all for an unknown email. */
  function GetUserOptions(d: Document, email: string): (r: seq<string>)
    ensures !HasEmail(d.users, email) ==> r == []
    ensures forall k ::
              (0 <= k < |d.users| && d.users[k].email == email &&
               forall j :: 0 <= j < k ==> d.users[j].email != email) ==> r == d.users[k].options
  {
    match GetUserByEmail(d, email)
    case None => []
    case Some(u) => u.options
  }

  function GetOptionById(d: Document, id: string): (r: Option<CatalogEntry>)
    ensures r.None? <==> !HasOption(d.options, id)
    ensures r.Some? ==> r.value.id == id
    ensures r.Some? ==> exists k :: 0 <= k < |d.options| && d.options[k] == r.value &&
                          forall j :: 0 <= j < k ==> d.options[j].id != id
  {
    match FindOption(d.options, id)
    case None => None
    case Some(i) => Some(d.options[i])
  }

  /** Access is refused to unknown and to inactive users; otherwise it is membership of the
      id in the user's own list. The catalog's enabled flag plays no part. */
  function UserHasAccess(d: Document, email: string, id: string): (r: bool)
    ensures !HasEmail(d.users, email) ==> !r
    ensures r ==> exists k :: 0 <= k < |d.users| && d.users[k].email == email &&
                    d.users[k].status != INACTIVE && id in d.users[k].options
    ensures forall k ::
              (0 <= k < |d.users| && d.users[k].email == email &&
               forall j :: 0 <= j < k ==> d.users[j].email != email) ==>
                (r <==> d.users[k].status != INACTIVE && id in d.users[k].options)
  {
    match GetUserByEmail(d, email)
    case None => false
    case Some(u) => u.status != INACTIVE && id in u.options
  }

  /** With unique emails, access holds exactly for the one user with that email, when that
      user is not inactive and holds the id; any status other than inactive grants. */
  lemma UserHasAccessIff(d: Document, email: string, id: string)
    requires DistinctEmails(d.users)
    ensures UserHasAccess(d, email, id) <==>
              exists k :: 0 <= k < |d.users| && d.users[k].email == email &&
                d.users[k].status != INACTIVE && id in d.users[k].options
  {
  }

  /** Toggling or otherwise changing the catalog never changes who has access. */
  lemma AccessIgnoresCatalog(d: Document, catalog: seq<CatalogEntry>, email: string, id: string)
    ensures UserHasAccess(d.(options := catalog), email, id) == UserHasAccess(d, email, id)
  {
  }

  /** The users whose option list holds the id, in storage order. */
  function UsersWithOption(users: seq<User>, id: string): (r: seq<User>)
    ensures |r| <= |users|
    ensures forall u :: u in r <==> u in users && id in u.options
  {
    if |users| == 0 then []
    else
      var rest := UsersWithOption(users[1..], id);
      assert forall u :: u in users <==> u == users[0] || u in users[1..];
      if id in users[0].options then [users[0]] + rest else rest
  }

  /** The filter works section by section, so the report keeps storage order, and it
      keeps one copy of each holder: a single user is kept alone or dropped. */
  lemma {:induction false} UsersWithOptionAppend(a: seq<User>, b: seq<User>, id: string)
    ensures UsersWithOption(a + b, id) == UsersWithOption(a, id) + UsersWithOption(b, id)
    ensures forall u :: UsersWithOption([u], id) == if id in u.options then [u] else []
  {
    if |a| > 0 {
      assert (a + b)[1..] == a[1..] + b;
      UsersWithOptionAppend(a[1..], b, id);
    } else {
      assert a + b == b;
    }
    forall u ensures UsersWithOption([u], id) == if id in u.options then [u] else [] {
      assert [u][1..] == [];
    }
  }

  function GetUsersWithOption(d: Document, id: string): (r: seq<User>)
    ensures forall u :: u in r <==> u in d.users && id in u.options
    ensures forall a, b :: d.users == a + b ==>
              r == UsersWithOption(a, id) + UsersWithOption(b, id)
  {
    forall a, b | d.users == a + b
      ensures UsersWithOption(d.users, id) == UsersWithOption(a, id) + UsersWithOption(b, id)
    {
      UsersWithOptionAppend(a, b, id);
    }
    UsersWithOption(d.users, id)
  }

  // ---------------------------------------------------------------- option lists

  /** The list with every occurrence of x dropped (the `filter(o => o !== x)`). */
  function RemoveAll(ids: seq<string>, x: string): (r: seq<string>)
    ensures multiset(r) == multiset(ids)[x := 0]
    ensures x !in r
    ensures forall y :: y != x ==> (y in r <==> y in ids)
  {
    if |ids| == 0 then []
    else
      assert ids == [ids[0]] + ids[1..];
      if ids[0] == x then RemoveAll(ids[1..], x)
      else [ids[0]] + RemoveAll(ids[1..], x)
  }

  /** Filtering keeps the order: it works section by section ... */
  lemma {:induction false} RemoveAllAppend(a: seq<string>, b: seq<string>, x: string)
    ensures RemoveAll(a + b, x) == RemoveAll(a, x) + RemoveAll(b, x)
  {
    if |a| > 0 {
      assert (a + b)[1..] == a[1..] + b;
      RemoveAllAppend(a[1..], b, x);
    } else {
      assert a + b == b;
    }
  }

  /** ... and leaves a list without x exactly as it was. */
  lemma {:induction false} RemoveAllAbsent(ids: seq<string>, x: string)
    requires x !in ids
    ensures RemoveAll(ids, x) == ids
  {
    if |ids| > 0 {
      assert x !in ids[1..];
      RemoveAllAbsent(ids[1..], x);
    }
  }

  /** A user after an option id has been stripped from their list. */
  function StripOption(u: User, id: string): (r: User)
    ensures r == u.(options := r.options)
    ensures id !in r.options
    ensures multiset(r.options) == multiset(u.options)[id := 0]
  {
    u.(options := RemoveAll(u.options, id))
  }

  /** Every user with the id stripped: the cascade of a catalog removal. */
  function Cascade(users: seq<User>, id: string): (r: seq<User>)
    ensures |r| == |users|
    ensures forall k :: 0 <= k < |r| ==> r[k] == users[k].(options := r[k].options)
    ensures forall k :: 0 <= k < |r| ==>
              id !in r[k].options && multiset(r[k].options) == multiset(users[k].options)[id := 0]
  {
    seq(|users|, k requires 0 <= k < |users| => StripOption(users[k], id))
  }

  /** After the cascade nobody holds the id, and nobody's key changed. */
  lemma CascadeClears(users: seq<User>, id: string)
    ensures |Cascade(users, id)| == |users|
    ensures forall k :: 0 <= k < |users| ==> id !in Cascade(users, id)[k].options
    ensures UsersWithOption(Cascade(users, id), id) == []
    ensures DistinctEmails(users) ==> DistinctEmails(Cascade(users, id))
  {
    UsersWithOptionNone(Cascade(users, id), id);
  }

  /** Nobody holding the id means an empty holders report. */
  lemma {:induction false} UsersWithOptionNone(users: seq<User>, id: string)
    requires forall k :: 0 <= k < |users| ==> id !in users[k].options
    ensures UsersWithOption(users, id) == []
  {
    if |users| > 0 {
      UsersWithOptionNone(users[1..], id);
    }
  }

  /** Stripping an id nobody holds changes no user. */
  lemma CascadeUnheld(users: seq<User>, id: string)
    requires forall k :: 0 <= k < |users| ==> id !in users[k].options
    ensures Cascade(users, id) == users
  {
    forall k | 0 <= k < |users| ensures Cascade(users, id)[k] == users[k] {
      RemoveAllAbsent(users[k].options, id);
    }
  }

  /** The cascade of one id leaves everyone's access to every other id as it was. */
  lemma CascadeKeepsOtherAccess(d: Document, id: string, email: string, other: string)
    requires other != id
    ensures UserHasAccess(d.(users := Cascade(d.users, id)), email, other) ==
            UserHasAccess(d, email, other)
  {
    FindUserSameEmails(Cascade(d.users, id), d.users, email);
  }

  // ---------------------------------------------------------------- key maintenance

  lemma AppendUserKeepsDistinct(users: seq<User>, u: User)
    requires DistinctEmails(users) && !HasEmail(users, u.email)
    ensures DistinctEmails(users + [u]) && HasEmail(users + [u], u.email)
  {
    var s := users + [u];
    assert s[|users|] == u;
    forall i, j | 0 <= i < j < |s| ensures s[i].email != s[j].email {
      if j == |users| {
        assert s[i] == users[i];
      } else {
        assert s[i] == users[i] && s[j] == users[j];
      }
    }
  }

  lemma AppendOptionKeepsDistinct(options: seq<CatalogEntry>, o: CatalogEntry)
    requires DistinctIds(options) && !HasOption(options, o.id)
    ensures DistinctIds(options + [o]) && HasOption(options + [o], o.id)
  {
    var s := options + [o];
    assert s[|options|] == o;
    forall i, j | 0 <= i < j < |s| ensures s[i].id != s[j].id {
      if j == |options| {
        assert s[i] == options[i];
      } else {
        assert s[i] == options[i] && s[j] == options[j];
      }
    }
  }

  /** Deleting one user keeps the others unique and removes that email entirely. */
  lemma RemoveUserAtKeepsDistinct(users: seq<User>, i: nat)
    requires DistinctEmails(users) && i < |users|
    ensures DistinctEmails(users[..i] + users[i + 1..])
    ensures !HasEmail(users[..i] + users[i + 1..], users[i].email)
  {
  }

  /** Deleting one catalog entry keeps the others unique and removes that id entirely. */
  lemma RemoveOptionAtKeepsDistinct(options: seq<CatalogEntry>, i: nat)
    requires DistinctIds(options) && i < |options|
    ensures DistinctIds(options[..i] + options[i + 1..])
    ensures !HasOption(options[..i] + options[i + 1..], options[i].id)
  {
  }

  /** Rewriting fields other than the email of one user keeps emails unique. */
  lemma ReplaceUserKeepsDistinct(users: seq<User>, i: nat, u: User)
    requires DistinctEmails(users) && i < |users| && u.email == users[i].email
    ensures DistinctEmails(users[i := u])
  {
  }

  /** Rewriting fields other than the id of one entry keeps ids unique. */
  lemma ReplaceOptionKeepsDistinct(options: seq<CatalogEntry>, i: nat, o: CatalogEntry)
    requires DistinctIds(options) && i < |options| && o.id == options[i].id
    ensures DistinctIds(options[i := o])
  {
  }

  // ---------------------------------------------------------------- statistics

  function CountStatus(users: seq<User>, status: string): (n: nat)
    ensures n <= |users|
  {
    if |users| == 0 then 0
    else (if users[0].status == status then 1 else 0) + CountStatus(users[1..], status)
  }

  function CountEnabled(options: seq<CatalogEntry>): (n: nat)
    ensures n <= |options|
    ensures n == |options| <==> forall k :: 0 <= k < |options| ==> options[k].enabled
  {
    if |options| == 0 then 0
    else
      var rest := CountEnabled(options[1..]);
      assert forall k :: 1 <= k < |options| ==> options[k] == options[1..][k - 1];
      (if options[0].enabled then 1 else 0) + rest
  }

  /** Sum of the lengths of every user's option list. */
  function TotalOptionCount(users: seq<User>): (n: nat)
    ensures forall k :: 0 <= k < |users| ==> |users[k].options| <= n
  {
    if |users| == 0 then 0
    else
      var rest := TotalOptionCount(users[1..]);
      assert forall k :: 1 <= k < |users| ==> users[k] == users[1..][k - 1];
      |users[0].options| + rest
  }

  /** The status count adds up section by section, and a single user counts once exactly
      when they have that status. */
  lemma {:induction false} CountStatusAppend(a: seq<User>, b: seq<User>, status: string)
    ensures CountStatus(a + b, status) == CountStatus(a, status) + CountStatus(b, status)
    ensures forall u :: CountStatus([u], status) == if u.status == status then 1 else 0
  {
    if |a| > 0 {
      assert (a + b)[1..] == a[1..] + b;
      CountStatusAppend(a[1..], b, status);
    } else {
      assert a + b == b;
    }
    forall u ensures CountStatus([u], status) == if u.status == status then 1 else 0 {
      assert [u][1..] == [];
    }
  }

  /** The enabled count adds up section by section, and a single entry counts once exactly
      when it is enabled. */
  lemma {:induction false} CountEnabledAppend(a: seq<CatalogEntry>, b: seq<CatalogEntry>)
    ensures CountEnabled(a + b) == CountEnabled(a) + CountEnabled(b)
    ensures forall o :: CountEnabled([o]) == if o.enabled then 1 else 0
  {
    if |a| > 0 {
      assert (a + b)[1..] == a[1..] + b;
      CountEnabledAppend(a[1..], b);
    } else {
      assert a + b == b;
    }
    forall o ensures CountEnabled([o]) == if o.enabled then 1 else 0 {
      assert [o][1..] == [];
    }
  }

  /** The option total adds up section by section, and a single user contributes the
      length of their list. */
  lemma {:induction false} TotalOptionCountAppend(a: seq<User>, b: seq<User>)
    ensures TotalOptionCount(a + b) == TotalOptionCount(a) + TotalOptionCount(b)
    ensures forall u :: TotalOptionCount([u]) == |u.options|
  {
    if |a| > 0 {
      assert (a + b)[1..] == a[1..] + b;
      TotalOptionCountAppend(a[1..], b);
    } else {
      assert a + b == b;
    }
    forall u ensures TotalOptionCount([u]) == |u.options| {
      assert [u][1..] == [];
    }
  }

  /** A user cannot be counted both active and inactive. */
  lemma {:induction false} ActivePlusInactive(users: seq<User>)
    ensures CountStatus(users, ACTIVE) + CountStatus(users, INACTIVE) <= |users|
  {
    if |users| > 0 {
      ActivePlusInactive(users[1..]);
    }
  }

  /** The average list length: the summed lengths over the user count, and exactly 0 when
      there are no users. */
  function Average(sum: nat, total: nat): (a: real)
    ensures total == 0 ==> a == 0.0
    ensures total > 0 ==> a * (total as real) == sum as real
  {
    if total > 0 then sum as real / total as real else 0.0
  }

  function GetStats(d: Document): (s: Stats)
    ensures s.totalUsers == |d.users| && s.totalOptions == |d.options|
    ensures s.activeUsers == CountStatus(d.users, ACTIVE)
    ensures s.inactiveUsers == CountStatus(d.users, INACTIVE)
    ensures s.enabledOptions == CountEnabled(d.options)
    ensures s.activeUsers + s.inactiveUsers <= s.totalUsers
    ensures s.enabledOptions <= s.totalOptions
    ensures s.averageOptionsPerUser == Average(TotalOptionCount(d.users), |d.users|)
    ensures s.totalUsers == 0 ==> s.averageOptionsPerUser == 0.0
    ensures s.totalUsers > 0 ==>
              s.averageOptionsPerUser * (s.totalUsers as real) == TotalOptionCount(d.users) as real
  {
    ActivePlusInactive(d.users);
    var sum, total := TotalOptionCount(d.users), |d.users|;
    var average := Average(sum, total);
    Stats(
      total,
      CountStatus(d.users, ACTIVE),
      CountStatus(d.users, INACTIVE),
      |d.options|,
      CountEnabled(d.options),
      average)
  }

  // ---------------------------------------------------------------- backup

  /** A shallow shape check: both collections are present as arrays. */
  predicate ShapeOk(p: Parsed): (r: bool)
    ensures r <==> exists d: Document :: Exported(d) == p
  {
    if p.users.Some? && p.options.Some? then
      assert Exported(Document(p.users.value, p.options.value, p.adminSettings)) == p;
      true
    else
      false
  }

  /** What reading back an exported backup yields. */
  function Exported(d: Document): (p: Parsed)
    ensures p.users.Some? && p.options.Some?
    ensures p.users.value == d.users && p.options.value == d.options
  {
    Parsed(Some(d.users), Some(d.options), d.adminSettings)
  }

  /** The document an accepted backup becomes. */
  function Restored(p: Parsed): (d: Document)
    requires ShapeOk(p)
    ensures Exported(d) == p
  {
    Document(p.users.value, p.options.value, p.adminSettings)
  }

  /** Export followed by import gives back the same document. */
  lemma ExportRestoreRoundTrip(d: Document)
    ensures Restored(Exported(d)) == d
  {
  }
}
