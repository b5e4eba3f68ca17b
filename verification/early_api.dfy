/**
 * API.tsx, the earlier version of the service layer: no persistence, typed
 * numeric arguments, and every outcome resolves with its status code (the
 * Service transitions as they are). It seeds the stores differently and
 * `EditClient` derives `isActive` from its fourth argument being exactly the
 * string "true".
 */
module EarlyApi {
  import opened Wrappers
  import opened Store
  import opened Service
  import Util

  /** No seeded jobs; the job counter starts at 1. */
  function SeedJobs(): (t: Table<JobData>)
    ensures Valid(t) && |t.rows| == 0 && t.next == 1
  {
    Table([], 1)
  }

  /** One seeded user, "shadcn" under key 1; the user counter stands at 2. */
  function SeedUsers(): (t: Table<UserData>)
    ensures Valid(t) && t.next == 2 && DistinctNames(t.rows)
    ensures t.rows == [Row(1, UserData("shadcn", 1216985755))]
  {
    Table([Row(1, UserData("shadcn", 1216985755))], 2)
  }

  /** The store as the module loads. */
  function Init(): Db {
    Db(SeedJobs(), SeedClients(), SeedUsers())
  }

  /** `EditClient` with the id parsed by `parseInt` and `isActive` overwritten on every success. */
  function EditClient(db: Db, id: Parsed, name: Option<string>, addr: Option<string>,
                      activeText: Option<string>): (r: Step)
    ensures r.code == 0 || r.code == -4
    ensures r.code == -4 <==> !ValidateClientID(db, id)
    ensures r.code == -4 ==> r.db == db
    ensures r.code == 0 ==>
      && id.Num?
      && r.db.jobs == db.jobs && r.db.users == db.users
      && ClientEdited(db.clients, r.db.clients, id.n, name, addr, Some(activeText == Some("true")))
    ensures r.code == 0 ==>
      && FindKey(db.clients.rows, id.n).Some?
      && (r.db.clients.rows[FindKey(db.clients.rows, id.n).value].data.isActive <==> activeText == Some("true"))
    ensures Inv(db) ==> Inv(r.db)
  {
    Service.EditClient(db, id, name, addr, Some(activeText == Some("true")))
  }

  /** The operations a caller can issue, with the argument types of API.tsx. */
  datatype Call =
    | ListJobs
    | ListClients
    | ListUsers
    | NewJob(string, string, int)
    | UpdateJob(int, Option<string>, Option<string>, Option<int>, Option<bool>)
    | NewClient(string, string)
    | UpdateClient(Parsed, Option<string>, Option<string>, Option<string>)
    | SignIn(string, int)
    | NewUser(int, int, string, int)
    | ChangePassword(int, int, int, int, int)
    | RemoveUser(int, int, int)

  function NumOpt(x: Option<int>): Option<Parsed> {
    match x
    case None => None
    case Some(n) => Some(Num(n))
  }

  /** The store after one call (reads leave it as it is). */
  function Apply(db: Db, c: Call): Db {
    match c
    case ListJobs => db
    case ListClients => db
    case ListUsers => db
    case NewJob(name, reason, client) => CreateJob(db, name, reason, Num(client)).db
    case UpdateJob(id, name, reason, client, fin) => Service.EditJob(db, Num(id), name, reason, NumOpt(client), fin).db
    case NewClient(name, addr) => CreateClient(db, name, addr).db
    case UpdateClient(id, name, addr, activeText) => EditClient(db, id, name, addr, activeText).db
    case SignIn(_, _) => db
    case NewUser(myID, myPass, name, pass) => CreateUser(db, Num(myID), Num(myPass), name, pass).db
    case ChangePassword(myID, myPass, editID, oldPass, newPass) =>
      UpdatePassword(db, myID, myPass, editID, oldPass, newPass).db
    case RemoveUser(myID, myPass, editID) => Service.DeleteUser(db, myID, myPass, editID).db
  }

  /** Every job's client id names an existing client. */
  predicate JobsReferenceClients(db: Db) {
    forall i :: 0 <= i < |db.jobs.rows| ==> HasKey(db.clients.rows, db.jobs.rows[i].data.clientID)
  }

  /** The invariants of API.tsx's store: key order, job references, distinct usernames. */
  predicate Good(db: Db) {
    Inv(db) && JobsReferenceClients(db) && DistinctNames(db.users.rows)
  }

  /** Client keys only accumulate: the existing clients stay, in place, under their keys. */
  lemma ClientsKept(db: Db, c: Call)
    ensures |Apply(db, c).clients.rows| >= |db.clients.rows|
    ensures forall i :: 0 <= i < |db.clients.rows| ==> Apply(db, c).clients.rows[i].key == db.clients.rows[i].key
  {
    match c
    case NewClient(name, addr) =>
      var r := CreateClient(db, name, addr).db;
      assert forall i :: 0 <= i < |db.clients.rows| ==> r.clients.rows[i] == db.clients.rows[i];
    case _ =>
  }

  /** A client key present before a call is present after it. */
  lemma ClientKeysKept(db: Db, c: Call, k: int)
    requires HasKey(db.clients.rows, k)
    ensures HasKey(Apply(db, c).clients.rows, k)
  {
    ClientsKept(db, c);
    var i :| 0 <= i < |db.clients.rows| && db.clients.rows[i].key == k;
    assert Apply(db, c).clients.rows[i].key == k;
  }

  /** A job is created only against an existing client, so the references stay intact. */
  lemma CreateJobKeepsGood(db: Db, name: string, reason: string, client: int)
    requires Good(db)
    ensures Good(CreateJob(db, name, reason, Num(client)).db)
  {
    var db' := CreateJob(db, name, reason, Num(client)).db;
    forall i | 0 <= i < |db'.jobs.rows|
      ensures HasKey(db'.clients.rows, db'.jobs.rows[i].data.clientID)
    {
      if i < |db.jobs.rows| {
        assert db'.jobs.rows[i] == db.jobs.rows[i];
      }
    }
  }

  /** Re-assigning a job is checked against the clients, and the other jobs keep their client ids. */
  lemma EditJobKeepsGood(db: Db, id: int, name: Option<string>, reason: Option<string>,
                         client: Option<int>, fin: Option<bool>)
    requires Good(db)
    ensures Good(Service.EditJob(db, Num(id), name, reason, NumOpt(client), fin).db)
  {
    var s := Service.EditJob(db, Num(id), name, reason, NumOpt(client), fin);
    var db' := s.db;
    if s.code == 0 {
      var i := FindKey(db.jobs.rows, id).value;
      forall j | 0 <= j < |db'.jobs.rows|
        ensures HasKey(db'.clients.rows, db'.jobs.rows[j].data.clientID)
      {
        if j != i {
          assert db'.jobs.rows[j] == db.jobs.rows[j];
        } else if client.None? {
          assert db'.jobs.rows[j].data.clientID == db.jobs.rows[j].data.clientID;
        } else {
          assert ValidateClientID(db, Num(client.value));
        }
      }
    }
  }

  lemma {:induction false} ApplyKeepsGood(db: Db, c: Call)
    requires Good(db)
    ensures Good(Apply(db, c))
  {
    match c
    case NewJob(name, reason, client) => CreateJobKeepsGood(db, name, reason, client);
    case UpdateJob(id, name, reason, client, fin) => EditJobKeepsGood(db, id, name, reason, client, fin);
    case _ =>
      var db' := Apply(db, c);
      assert db'.jobs == db.jobs;
      forall i | 0 <= i < |db'.jobs.rows|
        ensures HasKey(db'.clients.rows, db'.jobs.rows[i].data.clientID)
      {
        ClientKeysKept(db, c, db.jobs.rows[i].data.clientID);
      }
  }

  /** The state reached by a sequence of calls. */
  function Run(db: Db, cs: seq<Call>): (r: Db)
    decreases |cs|
  {
    if |cs| == 0 then db else Run(Apply(db, cs[0]), cs[1..])
  }

  /** The seeded store satisfies the invariants, and every call sequence keeps them. */
  lemma {:induction false} Reachable(cs: seq<Call>)
    ensures Good(Run(Init(), cs))
  {
    RunKeepsGood(Init(), cs);
  }

  lemma {:induction false} RunKeepsGood(db: Db, cs: seq<Call>)
    requires Good(db)
    ensures Good(Run(db, cs))
    decreases |cs|
  {
    if |cs| > 0 {
      ApplyKeepsGood(db, cs[0]);
      RunKeepsGood(Apply(db, cs[0]), cs[1..]);
    }
  }

  /** The default account: the right password logs in as user 1, a wrong one gets -6, an unknown name -7. */
  lemma LoginExamples()
    ensures Login(Init().users, "shadcn", Util.HashOf(Util.Utf16("password"))) == LoginResult(true, 1, 0)
    ensures Login(Init().users, "shadcn", Util.HashOf(Util.Utf16("wrong"))) == LoginResult(false, -1, -6)
    ensures Login(Init().users, "nouser", Util.HashOf(Util.Utf16("x"))).errCode == -7
  {
    Util.PasswordHash();
    Util.WrongHash();
    assert FindUserName(Init().users.rows, "shadcn") == Some(0);
    assert !NameTaken(Init().users.rows, "nouser");
  }
}
