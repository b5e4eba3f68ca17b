/**
 * API.ts: the service layer with persistence. Every successful mutation
 * writes its store's snapshot to a `localStorage` item; the list operations
 * (and `LoginAuth`) merge the saved snapshot into memory first. A non-zero
 * status rejects the promise with that code instead of resolving with it.
 * Delays, JSON text and logging are not modelled.
 */
module Api {
  import opened Wrappers
  import opened Store
  import opened Persistence
  import opened Service
  import Util

  /** The items "JobsDB", "ClientsDB" and "UsersDB"; None when `getItem` returns null. */
  datatype Storage = Storage(jobs: Option<seq<Row<JobData>>>,
                             clients: Option<seq<Row<ClientData>>>,
                             users: Option<seq<Row<UserData>>>)

  /** Memory plus browser storage. */
  datatype World = World(db: Db, storage: Storage)

  /** `resolve(JSON.stringify(code))` or `reject(new Error(JSON.stringify(code)))`. */
  datatype Settlement = Resolved(code: int) | Rejected(code: int)

  datatype Reply = Reply(world: World, settled: Settlement)
  datatype Listing<T> = Listing(world: World, rows: seq<Row<T>>)
  datatype LoginReply = LoginReply(world: World, result: LoginResult)

  /** The seeded jobs: keys 1..3, all unfinished, the third unassigned (client -1). */
  function SeedJobs(): (t: Table<JobData>)
    ensures Valid(t) && |t.rows| == 3 && t.next == 4
    ensures forall i :: 0 <= i < 3 ==> t.rows[i].key == i + 1 && !t.rows[i].data.jobFinished
    ensures t.rows[2].data.clientID == -1
  {
    // Each seed goes through the constructor, so the keys are 1, 2, 3 and the counter ends one past.
    Table([
      Row(1, JobData("James Murphy", "Fridge is broken", 1, false)),
      Row(2, JobData("Michael Madsen", "HVAC pump not in place", 2, false)),
      Row(3, JobData("Maria Quiroz", "Lightbulb replacement", -1, false))], 4)
  }

  /** The seeded users: "shadcn" (key 1) and "disilverstein" (key 2), with distinct names. */
  function SeedUsers(): (t: Table<UserData>)
    ensures Valid(t) && t.next == 3 && DistinctNames(t.rows)
    ensures |t.rows| == 2
    ensures t.rows[0] == Row(1, UserData("shadcn", 1216985755))
    ensures t.rows[1] == Row(2, UserData("disilverstein", -1164974882))
  {
    Table([
      Row(1, UserData("shadcn", 1216985755)),
      Row(2, UserData("disilverstein", -1164974882))], 3)
  }

  /** Memory as the module loads, next to whatever storage a previous session left. */
  function Init(storage: Storage): World {
    World(Db(SeedJobs(), SeedClients(), SeedUsers()), storage)
  }

  /** The seeded password fields are `hashCode("password")` and `hashCode("testpass!")`. */
  lemma SeededPasswords()
    ensures SeedUsers().rows[0].data.password == Util.HashOf(Util.Utf16("password"))
    ensures SeedUsers().rows[1].data.password == Util.HashOf(Util.Utf16("testpass!"))
  {
    Util.PasswordHash();
    Util.TestpassHash();
  }

  // ------------------------------------------------------ persistence bridge

  /** `SaveJobsDB`: write the whole store as the saved snapshot; memory is untouched. */
  function SaveJobs(w: World): (r: World)
    ensures r.db == w.db
    ensures r.storage.jobs == Some(w.db.jobs.rows)
    ensures r.storage.clients == w.storage.clients && r.storage.users == w.storage.users
    ensures Inv(w.db) ==> LoadJobs(r) == r
  {
    MergeLaws(w.db.jobs, w.db.jobs.rows);
    w.(storage := w.storage.(jobs := Some(w.db.jobs.rows)))
  }

  /** `SaveClientsDB`. */
  function SaveClients(w: World): (r: World)
    ensures r.db == w.db
    ensures r.storage.clients == Some(w.db.clients.rows)
    ensures r.storage.jobs == w.storage.jobs && r.storage.users == w.storage.users
    ensures Inv(w.db) ==> LoadClients(r) == r
  {
    MergeLaws(w.db.clients, w.db.clients.rows);
    w.(storage := w.storage.(clients := Some(w.db.clients.rows)))
  }

  /** `SaveUsersDB`. */
  function SaveUsers(w: World): (r: World)
    ensures r.db == w.db
    ensures r.storage.users == Some(w.db.users.rows)
    ensures r.storage.jobs == w.storage.jobs && r.storage.clients == w.storage.clients
    ensures Inv(w.db) ==> LoadUsers(r) == r
  {
    MergeLaws(w.db.users, w.db.users.rows);
    w.(storage := w.storage.(users := Some(w.db.users.rows)))
  }

  /** `LoadJobsDB`: merge the saved jobs, if any, into memory; storage is only read. */
  function LoadJobs(w: World): (r: World)
    ensures w.storage.jobs.None? ==> r == w
    ensures r.storage == w.storage && r.db.clients == w.db.clients && r.db.users == w.db.users
    ensures |r.db.jobs.rows| >= |w.db.jobs.rows|
    ensures r.db.jobs.next - w.db.jobs.next == |r.db.jobs.rows| - |w.db.jobs.rows|
    ensures w.storage.jobs.Some? ==> |r.db.jobs.rows| <= |w.db.jobs.rows| + |w.storage.jobs.value|
    ensures forall i :: 0 <= i < |w.db.jobs.rows| ==> r.db.jobs.rows[i].key == w.db.jobs.rows[i].key
    ensures forall j :: |w.db.jobs.rows| <= j < |r.db.jobs.rows| ==> r.db.jobs.rows[j].key == w.db.jobs.next + (j - |w.db.jobs.rows|)
    ensures Inv(w.db) ==> Inv(r.db)
    ensures Inv(w.db) && w.storage.jobs.Some? ==>
      forall i :: 0 <= i < |w.db.jobs.rows| ==>
        r.db.jobs.rows[i] == Row(w.db.jobs.rows[i].key, Latest(w.storage.jobs.value, w.db.jobs.rows[i].key, w.db.jobs.rows[i].data))
    ensures w.storage.jobs.Some? && AllPresent(w.db.jobs, w.storage.jobs.value) ==>
      |r.db.jobs.rows| == |w.db.jobs.rows| && r.db.jobs.next == w.db.jobs.next
    ensures Inv(w.db) && w.storage.jobs.Some? && ClearOfCounter(w.db.jobs, w.storage.jobs.value) ==>
      var f := Fresh(w.db.jobs.rows, w.storage.jobs.value);
      && |r.db.jobs.rows| == |w.db.jobs.rows| + |f| && r.db.jobs.next == w.db.jobs.next + |f|
      && forall m :: 0 <= m < |f| ==> r.db.jobs.rows[|w.db.jobs.rows| + m] == Row(w.db.jobs.next + m, f[m].data)
    ensures w.storage.jobs.Some? ==>
      forall j :: 0 <= j < |r.db.jobs.rows| ==>
        (j < |w.db.jobs.rows| && r.db.jobs.rows[j].data == w.db.jobs.rows[j].data) ||
        Carries(w.storage.jobs.value, r.db.jobs.rows[j].data)
  {
    w.(db := w.db.(jobs := Load(w.db.jobs, w.storage.jobs)))
  }

  /** `LoadClientsDB`. */
  function LoadClients(w: World): (r: World)
    ensures w.storage.clients.None? ==> r == w
    ensures r.storage == w.storage && r.db.jobs == w.db.jobs && r.db.users == w.db.users
    ensures |r.db.clients.rows| >= |w.db.clients.rows|
    ensures r.db.clients.next - w.db.clients.next == |r.db.clients.rows| - |w.db.clients.rows|
    ensures w.storage.clients.Some? ==> |r.db.clients.rows| <= |w.db.clients.rows| + |w.storage.clients.value|
    ensures forall i :: 0 <= i < |w.db.clients.rows| ==> r.db.clients.rows[i].key == w.db.clients.rows[i].key
    ensures forall j :: |w.db.clients.rows| <= j < |r.db.clients.rows| ==> r.db.clients.rows[j].key == w.db.clients.next + (j - |w.db.clients.rows|)
    ensures Inv(w.db) ==> Inv(r.db)
    ensures Inv(w.db) && w.storage.clients.Some? ==>
      forall i :: 0 <= i < |w.db.clients.rows| ==>
        r.db.clients.rows[i] == Row(w.db.clients.rows[i].key, Latest(w.storage.clients.value, w.db.clients.rows[i].key, w.db.clients.rows[i].data))
    ensures w.storage.clients.Some? && AllPresent(w.db.clients, w.storage.clients.value) ==>
      |r.db.clients.rows| == |w.db.clients.rows| && r.db.clients.next == w.db.clients.next
    ensures Inv(w.db) && w.storage.clients.Some? && ClearOfCounter(w.db.clients, w.storage.clients.value) ==>
      var f := Fresh(w.db.clients.rows, w.storage.clients.value);
      && |r.db.clients.rows| == |w.db.clients.rows| + |f| && r.db.clients.next == w.db.clients.next + |f|
      && forall m :: 0 <= m < |f| ==> r.db.clients.rows[|w.db.clients.rows| + m] == Row(w.db.clients.next + m, f[m].data)
    ensures w.storage.clients.Some? ==>
      forall j :: 0 <= j < |r.db.clients.rows| ==>
        (j < |w.db.clients.rows| && r.db.clients.rows[j].data == w.db.clients.rows[j].data) ||
        Carries(w.storage.clients.value, r.db.clients.rows[j].data)
  {
    w.(db := w.db.(clients := Load(w.db.clients, w.storage.clients)))
  }

  /** `LoadUsersDB`. */
  function LoadUsers(w: World): (r: World)
    ensures w.storage.users.None? ==> r == w
    ensures r.storage == w.storage && r.db.jobs == w.db.jobs && r.db.clients == w.db.clients
    ensures |r.db.users.rows| >= |w.db.users.rows|
    ensures r.db.users.next - w.db.users.next == |r.db.users.rows| - |w.db.users.rows|
    ensures w.storage.users.Some? ==> |r.db.users.rows| <= |w.db.users.rows| + |w.storage.users.value|
    ensures forall i :: 0 <= i < |w.db.users.rows| ==> r.db.users.rows[i].key == w.db.users.rows[i].key
    ensures forall j :: |w.db.users.rows| <= j < |r.db.users.rows| ==> r.db.users.rows[j].key == w.db.users.next + (j - |w.db.users.rows|)
    ensures Inv(w.db) ==> Inv(r.db)
    ensures Inv(w.db) && w.storage.users.Some? ==>
      forall i :: 0 <= i < |w.db.users.rows| ==>
        r.db.users.rows[i] == Row(w.db.users.rows[i].key, Latest(w.storage.users.value, w.db.users.rows[i].key, w.db.users.rows[i].data))
    ensures w.storage.users.Some? && AllPresent(w.db.users, w.storage.users.value) ==>
      |r.db.users.rows| == |w.db.users.rows| && r.db.users.next == w.db.users.next
    ensures Inv(w.db) && w.storage.users.Some? && ClearOfCounter(w.db.users, w.storage.users.value) ==>
      var f := Fresh(w.db.users.rows, w.storage.users.value);
      && |r.db.users.rows| == |w.db.users.rows| + |f| && r.db.users.next == w.db.users.next + |f|
      && forall m :: 0 <= m < |f| ==> r.db.users.rows[|w.db.users.rows| + m] == Row(w.db.users.next + m, f[m].data)
    ensures w.storage.users.Some? ==>
      forall j :: 0 <= j < |r.db.users.rows| ==>
        (j < |w.db.users.rows| && r.db.users.rows[j].data == w.db.users.rows[j].data) ||
        Carries(w.storage.users.value, r.db.users.rows[j].data)
  {
    w.(db := w.db.(users := Load(w.db.users, w.storage.users)))
  }

  // ---------------------------------------------------------------- commit

  /**
   * Settle a transition: on 0 adopt the new state, write the touched store's
   * snapshot and resolve; otherwise reject with the code and leave everything.
   */
  function Commit(w: World, s: Step, save: World -> World): Reply {
    if s.code == 0 then Reply(save(w.(db := s.db)), Resolved(0)) else Reply(w, Rejected(s.code))
  }

  // ------------------------------------------------------------------- jobs

  /** `GetAllJobs`: merge the saved jobs, then return the whole array. */
  function GetAllJobs(w: World): (r: Listing<JobData>)
    ensures r.rows == r.world.db.jobs.rows
    ensures r.world.storage == w.storage
    ensures r.world.db.clients == w.db.clients && r.world.db.users == w.db.users
    ensures w.storage.jobs.None? ==> r.world == w
    ensures |r.rows| >= |w.db.jobs.rows|
    ensures r.world.db.jobs.next - w.db.jobs.next == |r.rows| - |w.db.jobs.rows|
    ensures w.storage.jobs.Some? ==> |r.rows| <= |w.db.jobs.rows| + |w.storage.jobs.value|
    ensures forall i :: 0 <= i < |w.db.jobs.rows| ==> r.rows[i].key == w.db.jobs.rows[i].key
    ensures forall j :: |w.db.jobs.rows| <= j < |r.rows| ==> r.rows[j].key == w.db.jobs.next + (j - |w.db.jobs.rows|)
    ensures Inv(w.db) ==> Inv(r.world.db)
    ensures Inv(w.db) && w.storage.jobs.Some? ==>
      forall i :: 0 <= i < |w.db.jobs.rows| ==>
        r.rows[i] == Row(w.db.jobs.rows[i].key, Latest(w.storage.jobs.value, w.db.jobs.rows[i].key, w.db.jobs.rows[i].data))
    ensures w.storage.jobs.Some? && AllPresent(w.db.jobs, w.storage.jobs.value) ==>
      |r.rows| == |w.db.jobs.rows|
    ensures Inv(w.db) && w.storage.jobs.Some? && ClearOfCounter(w.db.jobs, w.storage.jobs.value) ==>
      var f := Fresh(w.db.jobs.rows, w.storage.jobs.value);
      && |r.rows| == |w.db.jobs.rows| + |f| && r.world.db.jobs.next == w.db.jobs.next + |f|
      && forall m :: 0 <= m < |f| ==> r.rows[|w.db.jobs.rows| + m] == Row(w.db.jobs.next + m, f[m].data)
    ensures w.storage.jobs.Some? ==>
      forall j :: 0 <= j < |r.rows| ==>
        (j < |w.db.jobs.rows| && r.rows[j].data == w.db.jobs.rows[j].data) ||
        Carries(w.storage.jobs.value, r.rows[j].data)
  {
    var w' := LoadJobs(w);
    Listing(w', w'.db.jobs.rows)
  }

  /** `CreateNewJob`: rejects with -1 for an unknown client; on success the jobs snapshot is saved. */
  function CreateNewJob(w: World, name: string, reason: string, client: Parsed): (r: Reply)
    ensures r.settled == Resolved(0) || r.settled == Rejected(-1)
    ensures r.settled.Rejected? <==> !ValidateClientID(w.db, client)
    ensures r.settled.Rejected? ==> r.world == w
    ensures r.settled.Resolved? ==>
      && r.world.db.jobs.rows == w.db.jobs.rows + [Row(w.db.jobs.next, JobData(name, reason, client.n, false))]
      && r.world.db.jobs.next == w.db.jobs.next + 1
      && r.world.db.clients == w.db.clients && r.world.db.users == w.db.users
      && r.world.storage == w.storage.(jobs := Some(r.world.db.jobs.rows))
  {
    Commit(w, CreateJob(w.db, name, reason, client), SaveJobs)
  }

  /** `EditJob`: rejects with -2 or -3 and changes nothing; otherwise patches the job and saves. */
  function EditJob(w: World, id: Parsed, name: Option<string>, reason: Option<string>,
                   client: Option<Parsed>, fin: Option<bool>): (r: Reply)
    ensures r.settled == Resolved(0) || r.settled == Rejected(-2) || r.settled == Rejected(-3)
    ensures r.settled == Rejected(-2) <==> id.NaN? || !HasKey(w.db.jobs.rows, id.n)
    ensures r.settled == Rejected(-3) <==>
      id.Num? && HasKey(w.db.jobs.rows, id.n) && client.Some? && !ValidateClientID(w.db, client.value)
    ensures r.settled.Rejected? ==> r.world == w
    ensures r.settled.Resolved? ==>
      && id.Num?
      && JobEdited(w.db.jobs, r.world.db.jobs, id.n, name, reason, client, fin)
      && r.world.db.clients == w.db.clients && r.world.db.users == w.db.users
      && r.world.storage == w.storage.(jobs := Some(r.world.db.jobs.rows))
  {
    Commit(w, Service.EditJob(w.db, id, name, reason, client, fin), SaveJobs)
  }

  // ---------------------------------------------------------------- clients

  /** `GetAllClients`. */
  function GetAllClients(w: World): (r: Listing<ClientData>)
    ensures r.rows == r.world.db.clients.rows
    ensures r.world.storage == w.storage
    ensures r.world.db.jobs == w.db.jobs && r.world.db.users == w.db.users
    ensures w.storage.clients.None? ==> r.world == w
    ensures |r.rows| >= |w.db.clients.rows|
    ensures r.world.db.clients.next - w.db.clients.next == |r.rows| - |w.db.clients.rows|
    ensures w.storage.clients.Some? ==> |r.rows| <= |w.db.clients.rows| + |w.storage.clients.value|
    ensures forall i :: 0 <= i < |w.db.clients.rows| ==> r.rows[i].key == w.db.clients.rows[i].key
    ensures forall j :: |w.db.clients.rows| <= j < |r.rows| ==> r.rows[j].key == w.db.clients.next + (j - |w.db.clients.rows|)
    ensures Inv(w.db) ==> Inv(r.world.db)
    ensures Inv(w.db) && w.storage.clients.Some? ==>
      forall i :: 0 <= i < |w.db.clients.rows| ==>
        r.rows[i] == Row(w.db.clients.rows[i].key, Latest(w.storage.clients.value, w.db.clients.rows[i].key, w.db.clients.rows[i].data))
    ensures w.storage.clients.Some? && AllPresent(w.db.clients, w.storage.clients.value) ==>
      |r.rows| == |w.db.clients.rows|
    ensures Inv(w.db) && w.storage.clients.Some? && ClearOfCounter(w.db.clients, w.storage.clients.value) ==>
      var f := Fresh(w.db.clients.rows, w.storage.clients.value);
      && |r.rows| == |w.db.clients.rows| + |f| && r.world.db.clients.next == w.db.clients.next + |f|
      && forall m :: 0 <= m < |f| ==> r.rows[|w.db.clients.rows| + m] == Row(w.db.clients.next + m, f[m].data)
    ensures w.storage.clients.Some? ==>
      forall j :: 0 <= j < |r.rows| ==>
        (j < |w.db.clients.rows| && r.rows[j].data == w.db.clients.rows[j].data) ||
        Carries(w.storage.clients.value, r.rows[j].data)
  {
    var w' := LoadClients(w);
    Listing(w', w'.db.clients.rows)
  }

  /** `CreateNewClient`: always resolves 0, appends one active client and saves. */
  function CreateNewClient(w: World, name: string, addr: string): (r: Reply)
    ensures r.settled == Resolved(0)
    ensures r.world.db.clients.rows == w.db.clients.rows + [Row(w.db.clients.next, ClientData(name, addr, true))]
    ensures r.world.db.clients.next == w.db.clients.next + 1
    ensures r.world.db.jobs == w.db.jobs && r.world.db.users == w.db.users
    ensures r.world.storage == w.storage.(clients := Some(r.world.db.clients.rows))
  {
    Commit(w, CreateClient(w.db, name, addr), SaveClients)
  }

  /** `EditClient`: rejects with -4 for an unknown client; otherwise patches the supplied fields and saves. */
  function EditClient(w: World, id: Parsed, name: Option<string>, addr: Option<string>,
                      active: Option<bool>): (r: Reply)
    ensures r.settled == Resolved(0) || r.settled == Rejected(-4)
    ensures r.settled.Rejected? <==> !ValidateClientID(w.db, id)
    ensures r.settled.Rejected? ==> r.world == w
    ensures r.settled.Resolved? ==>
      && id.Num?
      && ClientEdited(w.db.clients, r.world.db.clients, id.n, name, addr, active)
      && r.world.db.jobs == w.db.jobs && r.world.db.users == w.db.users
      && r.world.storage == w.storage.(clients := Some(r.world.db.clients.rows))
    ensures |r.world.db.clients.rows| == |w.db.clients.rows|
  {
    Commit(w, Service.EditClient(w.db, id, name, addr, active), SaveClients)
  }

  // ------------------------------------------------------------------ users

  /** `LoginAuth`: merge the saved users first, then check; the promise always resolves. */
  function LoginAuth(w: World, name: string, pass: int): (r: LoginReply)
    ensures r.world.storage == w.storage && r.world.db.jobs == w.db.jobs && r.world.db.clients == w.db.clients
    ensures w.storage.users.None? ==> r.world == w
    ensures r.world == LoadUsers(w)
    ensures r.result.errCode == -7 <==> !NameTaken(r.world.db.users.rows, name)
    ensures r.result.validLogin <==> r.result.errCode == 0
    ensures r.result.errCode == 0 || r.result.errCode == -6 || r.result.errCode == -7
    ensures r.result.validLogin ==>
      exists i :: 0 <= i < |r.world.db.users.rows| && r.world.db.users.rows[i] == Row(r.result.userID, UserData(name, pass))
    ensures !r.result.validLogin ==> r.result.userID == -1
    ensures NameTaken(r.world.db.users.rows, name) ==>
      var i := FindUserName(r.world.db.users.rows, name).value;
      && (r.result.errCode == -6 <==> r.world.db.users.rows[i].data.password != pass)
      && (r.result.validLogin ==> r.result.userID == r.world.db.users.rows[i].key)
  {
    var w' := LoadUsers(w);
    LoginReply(w', Login(w'.db.users, name, pass))
  }

  /** `GetUserList`. */
  function GetUserList(w: World): (r: Listing<UserData>)
    ensures r.rows == r.world.db.users.rows
    ensures r.world.storage == w.storage
    ensures r.world.db.jobs == w.db.jobs && r.world.db.clients == w.db.clients
    ensures w.storage.users.None? ==> r.world == w
    ensures |r.rows| >= |w.db.users.rows|
    ensures r.world.db.users.next - w.db.users.next == |r.rows| - |w.db.users.rows|
    ensures w.storage.users.Some? ==> |r.rows| <= |w.db.users.rows| + |w.storage.users.value|
    ensures forall i :: 0 <= i < |w.db.users.rows| ==> r.rows[i].key == w.db.users.rows[i].key
    ensures forall j :: |w.db.users.rows| <= j < |r.rows| ==> r.rows[j].key == w.db.users.next + (j - |w.db.users.rows|)
    ensures Inv(w.db) ==> Inv(r.world.db)
    ensures Inv(w.db) && w.storage.users.Some? ==>
      forall i :: 0 <= i < |w.db.users.rows| ==>
        r.rows[i] == Row(w.db.users.rows[i].key, Latest(w.storage.users.value, w.db.users.rows[i].key, w.db.users.rows[i].data))
    ensures w.storage.users.Some? && AllPresent(w.db.users, w.storage.users.value) ==>
      |r.rows| == |w.db.users.rows|
    ensures Inv(w.db) && w.storage.users.Some? && ClearOfCounter(w.db.users, w.storage.users.value) ==>
      var f := Fresh(w.db.users.rows, w.storage.users.value);
      && |r.rows| == |w.db.users.rows| + |f| && r.world.db.users.next == w.db.users.next + |f|
      && forall m :: 0 <= m < |f| ==> r.rows[|w.db.users.rows| + m] == Row(w.db.users.next + m, f[m].data)
    ensures w.storage.users.Some? ==>
      forall j :: 0 <= j < |r.rows| ==>
        (j < |w.db.users.rows| && r.rows[j].data == w.db.users.rows[j].data) ||
        Carries(w.storage.users.value, r.rows[j].data)
  {
    var w' := LoadUsers(w);
    Listing(w', w'.db.users.rows)
  }

  /** `CreateNewUser`: the acting id and hash arrive as strings and go through `parseInt`. */
  function CreateNewUser(w: World, myID: Parsed, myPass: Parsed, name: string, pass: int): (r: Reply)
    ensures r.settled == Resolved(0) || r.settled == Rejected(-8) || r.settled == Rejected(-9)
    ensures r.settled == Rejected(-9) <==> !ValidateUser(w.db.users, myID, myPass)
    ensures r.settled == Rejected(-8) <==> ValidateUser(w.db.users, myID, myPass) && NameTaken(w.db.users.rows, name)
    ensures r.settled.Rejected? ==> r.world == w
    ensures r.settled.Resolved? ==>
      && r.world.db.users.rows == w.db.users.rows + [Row(w.db.users.next, UserData(name, pass))]
      && r.world.db.users.next == w.db.users.next + 1
      && r.world.db.jobs == w.db.jobs && r.world.db.clients == w.db.clients
      && r.world.storage == w.storage.(users := Some(r.world.db.users.rows))
  {
    Commit(w, CreateUser(w.db, myID, myPass, name, pass), SaveUsers)
  }

  /** `UpdateUserPassword`: rejects -12, -11, -10 in that order; otherwise changes one password and saves. */
  function UpdateUserPassword(w: World, myID: int, myPass: int, editID: int, oldPass: int, newPass: int): (r: Reply)
    ensures r.settled == Resolved(0) || r.settled == Rejected(-10) || r.settled == Rejected(-11) || r.settled == Rejected(-12)
    ensures r.settled == Rejected(-12) <==> !ValidateUser(w.db.users, Num(myID), Num(myPass))
    ensures r.settled == Rejected(-11) <==> ValidateUser(w.db.users, Num(myID), Num(myPass)) && !HasKey(w.db.users.rows, editID)
    ensures r.settled == Rejected(-10) <==>
      && ValidateUser(w.db.users, Num(myID), Num(myPass))
      && HasKey(w.db.users.rows, editID)
      && !ValidateUser(w.db.users, Num(editID), Num(oldPass))
    ensures r.settled.Rejected? ==> r.world == w
    ensures r.settled.Resolved? ==>
      && PasswordChanged(w.db.users, r.world.db.users, editID, newPass)
      && r.world.db.jobs == w.db.jobs && r.world.db.clients == w.db.clients
      && r.world.storage == w.storage.(users := Some(r.world.db.users.rows))
  {
    Commit(w, UpdatePassword(w.db, myID, myPass, editID, oldPass, newPass), SaveUsers)
  }

  /** `DeleteUser`: rejects -15, -14, -13 in that order; otherwise splices out one user and saves. */
  function DeleteUser(w: World, myID: int, myPass: int, editID: int): (r: Reply)
    ensures r.settled == Resolved(0) || r.settled == Rejected(-13) || r.settled == Rejected(-14) || r.settled == Rejected(-15)
    ensures r.settled == Rejected(-15) <==> !ValidateUser(w.db.users, Num(myID), Num(myPass))
    ensures r.settled == Rejected(-14) <==> ValidateUser(w.db.users, Num(myID), Num(myPass)) && myID == editID
    ensures r.settled == Rejected(-13) <==>
      ValidateUser(w.db.users, Num(myID), Num(myPass)) && myID != editID && !HasKey(w.db.users.rows, editID)
    ensures r.settled.Rejected? ==> r.world == w
    ensures r.settled.Resolved? ==>
      && |r.world.db.users.rows| == |w.db.users.rows| - 1
      && (Inv(w.db) ==> r.world.db.users.rows == Without(w.db.users.rows, editID))
      && r.world.db.users.next == w.db.users.next
      && r.world.db.jobs == w.db.jobs && r.world.db.clients == w.db.clients
      && r.world.storage == w.storage.(users := Some(r.world.db.users.rows))
  {
    Commit(w, Service.DeleteUser(w.db, myID, myPass, editID), SaveUsers)
  }

  // ---------------------------------------------------- across calls

  /** After any successful write the next list call returns the live store unchanged. */
  lemma SaveThenList(w: World)
    requires Inv(w.db)
    ensures GetAllJobs(SaveJobs(w)) == Listing(SaveJobs(w), w.db.jobs.rows)
    ensures GetAllClients(SaveClients(w)) == Listing(SaveClients(w), w.db.clients.rows)
    ensures GetUserList(SaveUsers(w)) == Listing(SaveUsers(w), w.db.users.rows)
  {
  }

  /**
   * A new session starts from the seeds. When a previous session saved a store
   * keyed 1..n with n at least the seed count (no deletions), the first list call
   * returns exactly the saved records and the counter continues from n + 1.
   */
  lemma ReloadSeededJobs(s: Storage)
    requires s.jobs.Some? && Consecutive(s.jobs.value, 1) && |s.jobs.value| >= 3
    ensures GetAllJobs(Init(s)).rows == s.jobs.value
    ensures GetAllJobs(Init(s)).world.db.jobs.next == |s.jobs.value| + 1
  {
    LoadExtends(SeedJobs(), s.jobs.value);
  }

  lemma ReloadSeededClients(s: Storage)
    requires s.clients.Some? && Consecutive(s.clients.value, 1) && |s.clients.value| >= 3
    ensures GetAllClients(Init(s)).rows == s.clients.value
    ensures GetAllClients(Init(s)).world.db.clients.next == |s.clients.value| + 1
  {
    LoadExtends(SeedClients(), s.clients.value);
  }

  lemma ReloadSeededUsers(s: Storage)
    requires s.users.Some? && Consecutive(s.users.value, 1) && |s.users.value| >= 2
    ensures GetUserList(Init(s)).rows == s.users.value
    ensures GetUserList(Init(s)).world.db.users.next == |s.users.value| + 1
  {
    LoadExtends(SeedUsers(), s.users.value);
  }

  /** With nothing saved yet, the default account logs in; a wrong hash gets -6 and an unknown name -7. */
  lemma LoginExamples()
    ensures LoginAuth(Init(Storage(None, None, None)), "shadcn", Util.HashOf(Util.Utf16("password"))).result
            == LoginResult(true, 1, 0)
    ensures LoginAuth(Init(Storage(None, None, None)), "shadcn", Util.HashOf(Util.Utf16("wrong"))).result
            == LoginResult(false, -1, -6)
    ensures LoginAuth(Init(Storage(None, None, None)), "nouser", Util.HashOf(Util.Utf16("x"))).result.errCode == -7
  {
    Util.PasswordHash();
    Util.WrongHash();
    var users := Init(Storage(None, None, None)).db.users;
    assert FindUserName(users.rows, "shadcn") == Some(0);
    assert !NameTaken(users.rows, "nouser");
  }

  /** The operations a caller can issue, with the argument types of API.ts after parsing. */
  datatype Call =
    | ListJobs
    | NewJob(string, string, Parsed)
    | UpdateJob(Parsed, Option<string>, Option<string>, Option<Parsed>, Option<bool>)
    | ListClients
    | NewClient(string, string)
    | UpdateClient(Parsed, Option<string>, Option<string>, Option<bool>)
    | SignIn(string, int)
    | ListUsers
    | NewUser(Parsed, Parsed, string, int)
    | ChangePassword(int, int, int, int, int)
    | RemoveUser(int, int, int)

  /** Memory and storage after one call. */
  function Apply(w: World, c: Call): World {
    match c
    case ListJobs => GetAllJobs(w).world
    case NewJob(name, reason, client) => CreateNewJob(w, name, reason, client).world
    case UpdateJob(id, name, reason, client, fin) => EditJob(w, id, name, reason, client, fin).world
    case ListClients => GetAllClients(w).world
    case NewClient(name, addr) => CreateNewClient(w, name, addr).world
    case UpdateClient(id, name, addr, active) => EditClient(w, id, name, addr, active).world
    case SignIn(name, pass) => LoginAuth(w, name, pass).world
    case ListUsers => GetUserList(w).world
    case NewUser(myID, myPass, name, pass) => CreateNewUser(w, myID, myPass, name, pass).world
    case ChangePassword(myID, myPass, editID, oldPass, newPass) =>
      UpdateUserPassword(w, myID, myPass, editID, oldPass, newPass).world
    case RemoveUser(myID, myPass, editID) => DeleteUser(w, myID, myPass, editID).world
  }

  /** Jobs and clients are never removed: every existing record stays at its index under its key. */
  predicate KeptJobsAndClients(before: Db, after: Db) {
    && |after.jobs.rows| >= |before.jobs.rows|
    && (forall i :: 0 <= i < |before.jobs.rows| ==> after.jobs.rows[i].key == before.jobs.rows[i].key)
    && |after.clients.rows| >= |before.clients.rows|
    && (forall i :: 0 <= i < |before.clients.rows| ==> after.clients.rows[i].key == before.clients.rows[i].key)
  }

  lemma JobCallKeeps(w: World, c: Call)
    requires Inv(w.db) && (c.NewJob? || c.UpdateJob?)
    ensures Inv(Apply(w, c).db)
    ensures KeptJobsAndClients(w.db, Apply(w, c).db)
  {
    match c
    case NewJob(name, reason, client) =>
      assert Inv(CreateJob(w.db, name, reason, client).db);
    case UpdateJob(id, name, reason, client, fin) =>
      var r := EditJob(w, id, name, reason, client, fin);
      assert Inv(Service.EditJob(w.db, id, name, reason, client, fin).db);
      if r.settled.Resolved? {
        var i := FindKey(w.db.jobs.rows, id.n).value;
        assert forall j :: 0 <= j < |w.db.jobs.rows| && j != i ==> r.world.db.jobs.rows[j] == w.db.jobs.rows[j];
      }
  }

  lemma ClientCallKeeps(w: World, c: Call)
    requires Inv(w.db) && (c.NewClient? || c.UpdateClient?)
    ensures Inv(Apply(w, c).db)
    ensures KeptJobsAndClients(w.db, Apply(w, c).db)
  {
    match c
    case NewClient(name, addr) =>
      assert Inv(CreateClient(w.db, name, addr).db);
    case UpdateClient(id, name, addr, active) =>
      assert Inv(Service.EditClient(w.db, id, name, addr, active).db);
  }

  lemma UserCallKeeps(w: World, c: Call)
    requires Inv(w.db) && (c.NewUser? || c.ChangePassword? || c.RemoveUser?)
    ensures Inv(Apply(w, c).db)
    ensures Apply(w, c).db.jobs == w.db.jobs && Apply(w, c).db.clients == w.db.clients
  {
    match c
    case NewUser(myID, myPass, name, pass) =>
      assert Inv(CreateUser(w.db, myID, myPass, name, pass).db);
    case ChangePassword(myID, myPass, editID, oldPass, newPass) =>
      assert Inv(UpdatePassword(w.db, myID, myPass, editID, oldPass, newPass).db);
    case RemoveUser(myID, myPass, editID) =>
      assert Inv(Service.DeleteUser(w.db, myID, myPass, editID).db);
  }

  /** One call keeps the key invariant and removes no job or client. */
  lemma ApplyKeeps(w: World, c: Call)
    requires Inv(w.db)
    ensures Inv(Apply(w, c).db)
    ensures KeptJobsAndClients(w.db, Apply(w, c).db)
  {
    if c.NewJob? || c.UpdateJob? {
      JobCallKeeps(w, c);
    } else if c.NewClient? || c.UpdateClient? {
      ClientCallKeeps(w, c);
    } else if c.NewUser? || c.ChangePassword? || c.RemoveUser? {
      UserCallKeeps(w, c);
    }
  }

  /** Memory and storage after a sequence of calls. */
  function Run(w: World, cs: seq<Call>): World
    decreases |cs|
  {
    if |cs| == 0 then w else Run(Apply(w, cs[0]), cs[1..])
  }

  /**
   * Whatever a previous session left in storage, and whatever calls follow,
   * the key invariant holds and no job or client ever disappears.
   */
  lemma {:induction false} Reachable(storage: Storage, cs: seq<Call>)
    ensures Inv(Run(Init(storage), cs).db)
    ensures KeptJobsAndClients(Init(storage).db, Run(Init(storage), cs).db)
  {
    RunKeeps(Init(storage), cs);
  }

  lemma {:induction false} RunKeeps(w: World, cs: seq<Call>)
    requires Inv(w.db)
    ensures Inv(Run(w, cs).db)
    ensures KeptJobsAndClients(w.db, Run(w, cs).db)
    decreases |cs|
  {
    if |cs| > 0 {
      var w1 := Apply(w, cs[0]);
      ApplyKeeps(w, cs[0]);
      RunKeeps(w1, cs[1..]);
    }
  }
}
