/**
 * The mock service layer shared by both versions of the API: the three
 * record kinds, the lookups and validations, and every mutating operation as
 * a state transition that settles with a status code (0 for success, a
 * globally distinct negative code naming the failed check). This is the
 * resolve-with-code form of API.tsx; API.ts adds persistence and turns
 * non-zero codes into rejections (module Api).
 */
module Service {
  import opened Wrappers
  import opened Store

  /** A number produced by `parseInt` or by `==` coercion of a string: an integer, or NaN. */
  datatype Parsed = Num(n: int) | NaN

  datatype JobData = JobData(techName: string, jobReason: string, clientID: int, jobFinished: bool)
  datatype ClientData = ClientData(clientName: string, clientAddress: string, isActive: bool)
  /** `password` holds the 32-bit hash of the password, never the text. */
  datatype UserData = UserData(username: string, password: int)

  /** `jobsDB`, `clientsDB`, `usersDB` with their key counters. */
  datatype Db = Db(jobs: Table<JobData>, clients: Table<ClientData>, users: Table<UserData>)

  predicate Inv(db: Db) {
    Valid(db.jobs) && Valid(db.clients) && Valid(db.users)
  }

  /** No two users share a username. */
  predicate DistinctNames(rows: seq<Row<UserData>>) {
    forall i, j :: 0 <= i < j < |rows| ==> rows[i].data.username != rows[j].data.username
  }

  /** The store after an operation and the code its promise settles with. */
  datatype Step = Step(db: Db, code: int)

  /** The `{validLogin, userID, errCode}` object that `LoginAuth` resolves with. */
  datatype LoginResult = LoginResult(validLogin: bool, userID: int, errCode: int)

  /** The three clients both versions seed through the constructor: keys 1..3, all active. */
  function SeedClients(): (t: Table<ClientData>)
    ensures Valid(t) && |t.rows| == 3 && t.next == 4
    ensures forall i :: 0 <= i < 3 ==> t.rows[i].key == i + 1 && t.rows[i].data.isActive
  {
    Table([
      Row(1, ClientData("Daniel Silverstein", "3053 N Southport", true)),
      Row(2, ClientData("Adam Meyer", "Somewhere, Utah", true)),
      Row(3, ClientData("Worcester Polytechnic Institute", "100 Institute rd, Worcester, MA, 01609", true))], 4)
  }

  // ---------------------------------------------------------------- lookups

  /** A key lookup whose argument may be NaN, which equals no key. */
  function FindById<T>(t: Table<T>, id: Parsed): (r: Option<nat>)
    ensures r.None? <==> id.NaN? || !HasKey(t.rows, id.n)
    ensures r.Some? ==> r.value < |t.rows| && t.rows[r.value].key == id.n
  {
    if id.NaN? then None else FindKey(t.rows, id.n)
  }

  predicate NameTaken(rows: seq<Row<UserData>>, name: string) {
    exists i :: 0 <= i < |rows| && rows[i].data.username == name
  }

  /** `getUserByUName`: the first user, in array order, with that username. */
  function FindUserName(rows: seq<Row<UserData>>, name: string): (r: Option<nat>)
    ensures r.Some? ==> r.value < |rows| && rows[r.value].data.username == name
    ensures r.Some? ==> forall j :: 0 <= j < r.value ==> rows[j].data.username != name
    ensures r.None? <==> !NameTaken(rows, name)
  {
    if |rows| == 0 then None
    else if rows[0].data.username == name then Some(0)
    else match FindUserName(rows[1..], name)
      case None => None
      case Some(j) => Some(j + 1)
  }

  // ------------------------------------------------------------- validation

  /** A client id is a valid reference when some client has it, active or not. */
  function ValidateClientID(db: Db, id: Parsed): (b: bool)
    ensures b <==> id.Num? && exists i :: 0 <= i < |db.clients.rows| && db.clients.rows[i].key == id.n
  {
    FindById(db.clients, id).Some?
  }

  /** True when some user already has the name. */
  function ValidateUserName(users: Table<UserData>, name: string): (b: bool)
    ensures b <==> exists i :: 0 <= i < |users.rows| && users.rows[i].data.username == name
  {
    FindUserName(users.rows, name).Some?
  }

  /** The user found by key exists and stores exactly that password hash. */
  function ValidateUser(users: Table<UserData>, id: Parsed, pass: Parsed): (b: bool)
    ensures b ==> id.Num? && pass.Num? && HasKey(users.rows, id.n)
    ensures Valid(users) ==>
      (b <==> id.Num? && pass.Num? &&
              exists i :: 0 <= i < |users.rows| && users.rows[i].key == id.n && users.rows[i].data.password == pass.n)
  {
    match FindById(users, id)
    case None => false
    case Some(i) => pass.Num? && users.rows[i].data.password == pass.n
  }

  // ------------------------------------------------------------------- jobs

  /** `CreateNewJob`: the client must exist; the new job is unfinished and takes the next job key. */
  function CreateJob(db: Db, name: string, reason: string, client: Parsed): (r: Step)
    ensures r.code == 0 || r.code == -1
    ensures r.code == -1 <==> !ValidateClientID(db, client)
    ensures r.code == -1 ==> r.db == db
    ensures r.code == 0 ==>
      && client.Num?
      && r.db.clients == db.clients && r.db.users == db.users
      && r.db.jobs.next == db.jobs.next + 1
      && r.db.jobs.rows == db.jobs.rows + [Row(db.jobs.next, JobData(name, reason, client.n, false))]
    ensures Inv(db) ==> Inv(r.db)
    ensures Inv(db) && r.code == 0 ==> !HasKey(db.jobs.rows, db.jobs.next)
  {
    if ValidateClientID(db, client) then
      Step(db.(jobs := Insert(db.jobs, JobData(name, reason, client.n, false))), 0)
    else
      Step(db, -1)
  }

  /** Field by field: a supplied value replaces the field, an absent one leaves it. */
  predicate JobPatched(before: JobData, after: JobData, name: Option<string>, reason: Option<string>,
                       client: Option<Parsed>, fin: Option<bool>)
  {
    && (name.None? ==> after.techName == before.techName)
    && (name.Some? ==> after.techName == name.value)
    && (reason.None? ==> after.jobReason == before.jobReason)
    && (reason.Some? ==> after.jobReason == reason.value)
    && (client.None? ==> after.clientID == before.clientID)
    && (client.Some? ==> client.value == Num(after.clientID))
    && (fin.None? ==> after.jobFinished == before.jobFinished)
    && (fin.Some? ==> after.jobFinished == fin.value)
  }

  /** Only the record found under key `k` differs, its key is kept, and its fields are patched. */
  predicate JobEdited(before: Table<JobData>, after: Table<JobData>, k: int, name: Option<string>,
                      reason: Option<string>, client: Option<Parsed>, fin: Option<bool>)
  {
    match FindKey(before.rows, k)
    case None => false
    case Some(i) =>
      && after.next == before.next
      && |after.rows| == |before.rows|
      && (forall j :: 0 <= j < |before.rows| && j != i ==> after.rows[j] == before.rows[j])
      && after.rows[i].key == k
      && JobPatched(before.rows[i].data, after.rows[i].data, name, reason, client, fin)
  }

  /** `EditJob`: -2 for an unknown job, then -3 for a supplied client id that is not valid. */
  function EditJob(db: Db, id: Parsed, name: Option<string>, reason: Option<string>,
                   client: Option<Parsed>, fin: Option<bool>): (r: Step)
    ensures r.code == 0 || r.code == -2 || r.code == -3
    ensures r.code == -2 <==> id.NaN? || !HasKey(db.jobs.rows, id.n)
    ensures r.code == -3 <==> id.Num? && HasKey(db.jobs.rows, id.n) && client.Some? && !ValidateClientID(db, client.value)
    ensures r.code != 0 ==> r.db == db
    ensures r.code == 0 ==>
      && id.Num?
      && r.db.clients == db.clients && r.db.users == db.users
      && JobEdited(db.jobs, r.db.jobs, id.n, name, reason, client, fin)
    ensures Inv(db) ==> Inv(r.db)
  {
    match FindById(db.jobs, id)
    case None => Step(db, -2)
    case Some(i) =>
      if client.Some? && !ValidateClientID(db, client.value) then
        Step(db, -3)
      else
        var job := db.jobs.rows[i].data;
        var job1 := if client.Some? then job.(clientID := client.value.n) else job;
        var job2 := if name.Some? then job1.(techName := name.value) else job1;
        var job3 := if reason.Some? then job2.(jobReason := reason.value) else job2;
        var job4 := if fin.Some? then job3.(jobFinished := fin.value) else job3;
        Step(db.(jobs := SetData(db.jobs, i, job4)), 0)
  }

  // ---------------------------------------------------------------- clients

  /** `CreateNewClient`: never fails; the new client is active and takes the next client key. */
  function CreateClient(db: Db, name: string, addr: string): (r: Step)
    ensures r.code == 0
    ensures r.db.jobs == db.jobs && r.db.users == db.users
    ensures r.db.clients.next == db.clients.next + 1
    ensures r.db.clients.rows == db.clients.rows + [Row(db.clients.next, ClientData(name, addr, true))]
    ensures Inv(db) ==> Inv(r.db) && !HasKey(db.clients.rows, db.clients.next)
  {
    Step(db.(clients := Insert(db.clients, ClientData(name, addr, true))), 0)
  }

  predicate ClientPatched(before: ClientData, after: ClientData, name: Option<string>, addr: Option<string>,
                          active: Option<bool>)
  {
    && (name.None? ==> after.clientName == before.clientName)
    && (name.Some? ==> after.clientName == name.value)
    && (addr.None? ==> after.clientAddress == before.clientAddress)
    && (addr.Some? ==> after.clientAddress == addr.value)
    && (active.None? ==> after.isActive == before.isActive)
    && (active.Some? ==> after.isActive == active.value)
  }

  predicate ClientEdited(before: Table<ClientData>, after: Table<ClientData>, k: int, name: Option<string>,
                         addr: Option<string>, active: Option<bool>)
  {
    match FindKey(before.rows, k)
    case None => false
    case Some(i) =>
      && after.next == before.next
      && |after.rows| == |before.rows|
      && (forall j :: 0 <= j < |before.rows| && j != i ==> after.rows[j] == before.rows[j])
      && after.rows[i].key == k
      && ClientPatched(before.rows[i].data, after.rows[i].data, name, addr, active)
  }

  /** `EditClient`: -4 for an unknown client; deactivation is a field update, never a removal. */
  function EditClient(db: Db, id: Parsed, name: Option<string>, addr: Option<string>,
                      active: Option<bool>): (r: Step)
    ensures r.code == 0 || r.code == -4
    ensures r.code == -4 <==> !ValidateClientID(db, id)
    ensures r.code == -4 ==> r.db == db
    ensures r.code == 0 ==>
      && id.Num?
      && r.db.jobs == db.jobs && r.db.users == db.users
      && ClientEdited(db.clients, r.db.clients, id.n, name, addr, active)
    ensures |r.db.clients.rows| == |db.clients.rows|
    ensures forall j :: 0 <= j < |db.clients.rows| ==> r.db.clients.rows[j].key == db.clients.rows[j].key
    ensures Inv(db) ==> Inv(r.db)
  {
    match FindById(db.clients, id)
    case None => Step(db, -4)
    case Some(i) =>
      var c := db.clients.rows[i].data;
      var c1 := if name.Some? then c.(clientName := name.value) else c;
      var c2 := if addr.Some? then c1.(clientAddress := addr.value) else c1;
      var c3 := if active.Some? then c2.(isActive := active.value) else c2;
      Step(db.(clients := SetData(db.clients, i, c3)), 0)
  }

  // ------------------------------------------------------------------ users

  /** `LoginAuth`: -7 for an unknown username, -6 for a wrong hash on the first user with it. */
  function Login(users: Table<UserData>, name: string, pass: int): (r: LoginResult)
    ensures r.errCode == 0 || r.errCode == -6 || r.errCode == -7
    ensures r.validLogin <==> r.errCode == 0
    ensures !r.validLogin ==> r.userID == -1
    ensures r.errCode == -7 <==> !NameTaken(users.rows, name)
    ensures NameTaken(users.rows, name) ==>
      var i := FindUserName(users.rows, name).value;
      && (r.errCode == -6 <==> users.rows[i].data.password != pass)
      && (r.validLogin ==> r.userID == users.rows[i].key)
  {
    match FindUserName(users.rows, name)
    case None => LoginResult(false, -1, -7)
    case Some(i) =>
      if users.rows[i].data.password == pass then LoginResult(true, users.rows[i].key, 0)
      else LoginResult(false, -1, -6)
  }

  /** `CreateNewUser`: -9 for bad acting credentials, checked before -8 for a taken username. */
  function CreateUser(db: Db, myID: Parsed, myPass: Parsed, name: string, pass: int): (r: Step)
    ensures r.code == 0 || r.code == -8 || r.code == -9
    ensures r.code == -9 <==> !ValidateUser(db.users, myID, myPass)
    ensures r.code == -8 <==> ValidateUser(db.users, myID, myPass) && NameTaken(db.users.rows, name)
    ensures r.code != 0 ==> r.db == db
    ensures r.code == 0 ==>
      && r.db.jobs == db.jobs && r.db.clients == db.clients
      && r.db.users.next == db.users.next + 1
      && r.db.users.rows == db.users.rows + [Row(db.users.next, UserData(name, pass))]
    ensures Inv(db) ==> Inv(r.db)
    ensures DistinctNames(db.users.rows) ==> DistinctNames(r.db.users.rows)
  {
    if ValidateUser(db.users, myID, myPass) then
      if !ValidateUserName(db.users, name) then
        Step(db.(users := Insert(db.users, UserData(name, pass))), 0)
      else
        Step(db, -8)
    else
      Step(db, -9)
  }

  /** Only the user found under key `k` differs, and only in its password. */
  predicate PasswordChanged(before: Table<UserData>, after: Table<UserData>, k: int, pass: int) {
    match FindKey(before.rows, k)
    case None => false
    case Some(i) =>
      && after.next == before.next
      && |after.rows| == |before.rows|
      && (forall j :: 0 <= j < |before.rows| && j != i ==> after.rows[j] == before.rows[j])
      && after.rows[i] == Row(k, UserData(before.rows[i].data.username, pass))
  }

  /** `UpdateUserPassword`: -12 bad acting credentials, then -11 unknown target, then -10 wrong old hash. */
  function UpdatePassword(db: Db, myID: int, myPass: int, editID: int, oldPass: int, newPass: int): (r: Step)
    ensures r.code == 0 || r.code == -10 || r.code == -11 || r.code == -12
    ensures r.code == -12 <==> !ValidateUser(db.users, Num(myID), Num(myPass))
    ensures r.code == -11 <==> ValidateUser(db.users, Num(myID), Num(myPass)) && !HasKey(db.users.rows, editID)
    ensures r.code == -10 <==>
      && ValidateUser(db.users, Num(myID), Num(myPass))
      && HasKey(db.users.rows, editID)
      && !ValidateUser(db.users, Num(editID), Num(oldPass))
    ensures r.code != 0 ==> r.db == db
    ensures r.code == 0 ==>
      && r.db.jobs == db.jobs && r.db.clients == db.clients
      && PasswordChanged(db.users, r.db.users, editID, newPass)
    ensures Inv(db) ==> Inv(r.db)
    ensures DistinctNames(db.users.rows) ==> DistinctNames(r.db.users.rows)
  {
    if ValidateUser(db.users, Num(myID), Num(myPass)) then
      match FindKey(db.users.rows, editID)
      case None => Step(db, -11)
      case Some(i) =>
        var user := db.users.rows[i].data;
        if user.password == oldPass then
          Step(db.(users := SetData(db.users, i, user.(password := newPass))), 0)
        else
          Step(db, -10)
    else
      Step(db, -12)
  }

  /** `DeleteUser`: -15 bad acting credentials, then -14 self-deletion, then -13 unknown target. */
  function DeleteUser(db: Db, myID: int, myPass: int, editID: int): (r: Step)
    ensures r.code == 0 || r.code == -13 || r.code == -14 || r.code == -15
    ensures r.code == -15 <==> !ValidateUser(db.users, Num(myID), Num(myPass))
    ensures r.code == -14 <==> ValidateUser(db.users, Num(myID), Num(myPass)) && myID == editID
    ensures r.code == -13 <==>
      ValidateUser(db.users, Num(myID), Num(myPass)) && myID != editID && !HasKey(db.users.rows, editID)
    ensures r.code != 0 ==> r.db == db
    ensures r.code == 0 ==>
      && r.db.jobs == db.jobs && r.db.clients == db.clients
      && r.db.users.next == db.users.next
      && |r.db.users.rows| == |db.users.rows| - 1
    ensures Inv(db) && r.code == 0 ==> r.db.users.rows == Without(db.users.rows, editID)
    ensures Inv(db) ==> Inv(r.db)
    ensures DistinctNames(db.users.rows) ==> DistinctNames(r.db.users.rows)
  {
    if ValidateUser(db.users, Num(myID), Num(myPass)) then
      if myID != editID then
        match FindKey(db.users.rows, editID)
        case None => Step(db, -13)
        case Some(i) =>
          RemoveIsWithout(db.users.rows, i);
          Step(db.(users := RemoveAt(db.users, i)), 0)
      else
        Step(db, -14)
    else
      Step(db, -15)
  }

  // ------------------------------------------------- properties across calls

  /** A freshly created user can log in at once with the new name and hash, under the new key. */
  lemma CreatedUserCanLogin(db: Db, myID: Parsed, myPass: Parsed, name: string, pass: int)
    requires CreateUser(db, myID, myPass, name, pass).code == 0
    ensures Login(CreateUser(db, myID, myPass, name, pass).db.users, name, pass) == LoginResult(true, db.users.next, 0)
  {
    var users' := CreateUser(db, myID, myPass, name, pass).db.users;
    assert users'.rows[|db.users.rows|].data.username == name;
    assert forall j :: 0 <= j < |db.users.rows| ==> users'.rows[j].data.username != name by {
      assert !NameTaken(db.users.rows, name);
      assert forall j :: 0 <= j < |db.users.rows| ==> users'.rows[j] == db.users.rows[j];
    }
  }

  /**
   * After a successful password change the target logs in with the new hash
   * (usernames being distinct), and the old hash, if different, is refused with -6.
   */
  lemma ChangedPasswordLogsIn(db: Db, myID: int, myPass: int, editID: int, oldPass: int, newPass: int)
    requires Inv(db) && DistinctNames(db.users.rows)
    requires UpdatePassword(db, myID, myPass, editID, oldPass, newPass).code == 0
    ensures HasKey(db.users.rows, editID)
    ensures
      var users' := UpdatePassword(db, myID, myPass, editID, oldPass, newPass).db.users;
      var name := db.users.rows[FindKey(db.users.rows, editID).value].data.username;
      && Login(users', name, newPass) == LoginResult(true, editID, 0)
      && (oldPass != newPass ==> Login(users', name, oldPass) == LoginResult(false, -1, -6))
  {
    var users' := UpdatePassword(db, myID, myPass, editID, oldPass, newPass).db.users;
    var i := FindKey(db.users.rows, editID).value;
    var name := db.users.rows[i].data.username;
    assert users'.rows[i] == Row(editID, UserData(name, newPass));
    assert forall j :: 0 <= j < |users'.rows| && j != i ==> users'.rows[j].data.username != name by {
      assert forall j :: 0 <= j < |users'.rows| && j != i ==> users'.rows[j] == db.users.rows[j];
    }
  }

  /** A deleted user can no longer authenticate with any hash. */
  lemma DeletedUserCannotAuthenticate(db: Db, myID: int, myPass: int, editID: int, pass: int)
    requires Inv(db)
    requires DeleteUser(db, myID, myPass, editID).code == 0
    ensures !ValidateUser(DeleteUser(db, myID, myPass, editID).db.users, Num(editID), Num(pass))
  {
  }

  /** Deleting one user leaves every other user's credentials as they were. */
  lemma DeleteKeepsOthers(db: Db, myID: int, myPass: int, editID: int, id: int, pass: int)
    requires Inv(db)
    requires DeleteUser(db, myID, myPass, editID).code == 0
    requires id != editID
    ensures ValidateUser(DeleteUser(db, myID, myPass, editID).db.users, Num(id), Num(pass)) ==
            ValidateUser(db.users, Num(id), Num(pass))
  {
    var i := FindKey(db.users.rows, editID).value;
    var users' := DeleteUser(db, myID, myPass, editID).db.users;
    assert users' == RemoveAt(db.users, i);
    if ValidateUser(db.users, Num(id), Num(pass)) {
      var j :| 0 <= j < |db.users.rows| && db.users.rows[j].key == id && db.users.rows[j].data.password == pass;
      var j' := if j < i then j else j - 1;
      assert users'.rows[j'] == db.users.rows[j];
    }
    if ValidateUser(users', Num(id), Num(pass)) {
      var j' :| 0 <= j' < |users'.rows| && users'.rows[j'].key == id && users'.rows[j'].data.password == pass;
      var j := if j' < i then j' else j' + 1;
      assert users'.rows[j'] == db.users.rows[j];
    }
  }

  /** Editing a client never changes which ids are valid job references. */
  lemma EditKeepsReferences(db: Db, id: Parsed, name: Option<string>, addr: Option<string>,
                            active: Option<bool>, x: Parsed)
    ensures ValidateClientID(EditClient(db, id, name, addr, active).db, x) == ValidateClientID(db, x)
  {
    var clients' := EditClient(db, id, name, addr, active).db.clients;
    if ValidateClientID(db, x) {
      var i :| 0 <= i < |db.clients.rows| && db.clients.rows[i].key == x.n;
      assert clients'.rows[i].key == x.n;
    }
  }

  /** Deactivating an active client and then reactivating it restores the store exactly. */
  lemma DeactivationReversible(db: Db, id: int)
    requires Inv(db)
    requires HasKey(db.clients.rows, id)
    requires db.clients.rows[FindKey(db.clients.rows, id).value].data.isActive
    ensures
      var off := EditClient(db, Num(id), None, None, Some(false));
      && off.code == 0
      && EditClient(off.db, Num(id), None, None, Some(true)) == Step(db, 0)
  {
    var i := FindKey(db.clients.rows, id).value;
    var off := EditClient(db, Num(id), None, None, Some(false));
    assert off.db.clients.rows[i].key == id;
    FindKeyUnique(off.db.clients, i);
    var on := EditClient(off.db, Num(id), None, None, Some(true));
    assert on.db.clients.rows == db.clients.rows;
  }
}
