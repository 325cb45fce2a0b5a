/**
 Logging in: the from_*_credentials paths, which look a license up under the shared lock, look again under the
 unique lock, and may then create an account. Runs of all index operations, and logins racing each other.
 */
module AccountLogins {
  import opened Bytes
  import opened Accounts
  import opened AccountIndexes

  datatype Request =
    | DCNTELogin(ntSerial: string, ntAccessKey: string)
    | DCLogin(dcSerial: u32, dcAccessKey: string, dcName: string)
    | PCLogin(pcSerial: u32, pcAccessKey: string, pcName: string)
    | GCLogin(gcSerial: u32, gcAccessKey: string, gcPassword: Option<string>, gcName: string)
    | XBLogin(gamertag: string, userId: u64, xbAccountId: u64)
    | BBLogin(username: string, password: Option<string>)

  datatype LoginError = NoUsername | IncorrectPassword | IncorrectAccessKey | MissingAccount | AccountBanned

  /** The clock and the FNV hashes, as parameters. `variant` names the throwaway account of a shared account. */
  datatype Env = Env(now: u64, fnv: string -> u32, variant: (u32, string) -> u32)

  datatype Login = Login(owner: u32, account: Account, created: bool)

  function RequestKey(r: Request): LicenseKey {
    match r
    case DCNTELogin(s, _) => DCNTE(s)
    case DCLogin(n, _, _) => DC(n)
    case PCLogin(n, _, _) => PC(n)
    case GCLogin(n, _, _, _) => GC(n)
    case XBLogin(_, u, _) => XB(u)
    case BBLogin(u, _) => BB(u)
  }

  function Malformed(r: Request): Option<LoginError> {
    match r
    case DCNTELogin(s, _) => if s == "" then Some(NoUsername) else None
    case DCLogin(n, _, _) => if n == 0 then Some(NoUsername) else None
    case PCLogin(n, _, _) => if n == 0 then Some(NoUsername) else None
    case GCLogin(n, _, _, _) => if n == 0 then Some(NoUsername) else None
    case XBLogin(_, u, a) => if u == 0 || a == 0 then Some(IncorrectAccessKey) else None
    case BBLogin(u, p) => if u == "" || p == Some("") then Some(NoUsername) else None
  }

  /** What the request says against the license on file. */
  function WrongCredentials(r: Request, l: License, shared: bool): Option<LoginError> {
    match r
    case DCNTELogin(_, key) => if l.DCNTELicense? && l.ntAccessKey != key then Some(IncorrectAccessKey) else None
    case DCLogin(_, key, _) =>
      if !shared && l.V1V2License? && l.accessKey != key then Some(IncorrectAccessKey) else None
    case PCLogin(_, key, _) =>
      if !shared && l.V1V2License? && l.accessKey != key then Some(IncorrectAccessKey) else None
    case GCLogin(_, key, password, _) =>
      if !l.GCLicense? then None
      else if !shared && l.gAccessKey != key then Some(IncorrectAccessKey)
      else if password.Some? && l.gPassword != password.value then Some(IncorrectPassword)
      else None
    case XBLogin(_, _, _) => None
    case BBLogin(_, password) =>
      if l.BBLicense? && password.Some? && l.bPassword != password.value then Some(IncorrectPassword) else None
  }

  /** The text that tells the users of a shared account apart; only the DC, PC and GC paths support sharing. */
  function Variation(r: Request): Option<string> {
    match r
    case DCLogin(_, key, name) => Some(key + ":" + name)
    case PCLogin(_, key, name) => Some(key + ":" + name)
    case GCLogin(_, key, _, name) => Some(key + ":" + name)
    case _ => None
  }

  datatype Lookup = NotFound | Refused(error: LoginError) | Found(owner: u32, account: Account)

  /** The from_*_credentials_locked functions. `NotFound` is out_of_range. */
  function LookUp(ix: Index, env: Env, r: Request): Lookup {
    var k := RequestKey(r);
    if k !in ix.owners || ix.owners[k] !in ix.accounts then NotFound
    else
      var a := ix.accounts[ix.owners[k]];
      if k !in a.licenses then NotFound
      else
        var shared := Variation(r).Some? && IsShared(a);
        match WrongCredentials(r, a.licenses[k], shared)
        case Some(e) => Refused(e)
        case None =>
          if a.banEndTime != 0 && a.banEndTime >= env.now then Refused(AccountBanned)
          else if shared then
            Found(ix.owners[k], a.(isTemporary := true, accountId := env.variant(a.accountId, Variation(r).value)))
          else Found(ix.owners[k], a)
  }

  predicate MayCreate(r: Request, allowCreate: bool) {
    allowCreate && (r.GCLogin? ==> r.gcPassword.Some?) && (r.BBLogin? ==> r.password.Some?)
  }

  function NewLicense(r: Request): License
    requires MayCreate(r, true)
  {
    match r
    case DCNTELogin(s, key) => DCNTELicense(s, key)
    case DCLogin(n, key, _) => V1V2License(n, key)
    case PCLogin(n, key, _) => V1V2License(n, key)
    case GCLogin(n, key, p, _) => GCLicense(n, key, p.value)
    case XBLogin(tag, u, a) => XBLicense(tag, u, a)
    case BBLogin(u, p) => BBLicense(u, p.value)
  }

  function NewAccount(env: Env, r: Request): Account
    requires MayCreate(r, true)
  {
    var id := match r
      case DCNTELogin(s, _) => env.fnv(s) % ID_RANGE
      case DCLogin(n, _, _) => n
      case PCLogin(n, _, _) => n
      case GCLogin(n, _, _, _) => n
      case XBLogin(tag, _, _) => env.fnv(tag) % ID_RANGE
      case BBLogin(u, _) => env.fnv(u) % ID_RANGE;
    BlankAccount(id, map[RequestKey(r) := NewLicense(r)])
  }

  datatype LoginOutcome = LoginOutcome(index: Index, result: Result<Login, LoginError>)

  /** The part under the unique lock. add_locked cannot fail there: see CreateSucceeds. */
  function UnderUniqueLock(ix: Index, env: Env, r: Request, allowCreate: bool): LoginOutcome
    requires HasFreeId(ix.accounts.Keys)
  {
    match LookUp(ix, env, r)
    case Found(owner, a) => LoginOutcome(ix, Ok(Login(owner, a, false)))
    case Refused(e) => LoginOutcome(ix, Err(e))
    case NotFound =>
      if !MayCreate(r, allowCreate) then LoginOutcome(ix, Err(MissingAccount))
      else match Add(ix, NewAccount(env, r))
        case Ok((ix', id)) => LoginOutcome(ix', Ok(Login(id, ix'.accounts[id], true)))
        case Err(_) => LoginOutcome(ix, Err(MissingAccount))
  }

  /** A whole login with nobody else running. */
  function LogIn(ix: Index, env: Env, r: Request, allowCreate: bool): LoginOutcome
    requires HasFreeId(ix.accounts.Keys)
  {
    match Malformed(r)
    case Some(e) => LoginOutcome(ix, Err(e))
    case None =>
      match LookUp(ix, env, r)
      case Found(owner, a) => LoginOutcome(ix, Ok(Login(owner, a, false)))
      case Refused(e) => LoginOutcome(ix, Err(e))
      case NotFound => UnderUniqueLock(ix, env, r, allowCreate)
  }

  // ---- one login ----

  /** In a consistent index out_of_range means exactly that nobody holds the license. */
  lemma LookUpMeans(ix: Index, env: Env, r: Request)
    requires Consistent(ix)
    ensures var l := LookUp(ix, env, r);
      && (l.NotFound? <==> RequestKey(r) !in ix.owners)
      && (l.Found? ==> ix.owners[RequestKey(r)] == l.owner)
  {
  }

  lemma CreateSucceeds(ix: Index, env: Env, r: Request)
    requires Consistent(ix) && HasFreeId(ix.accounts.Keys) && MayCreate(r, true) && RequestKey(r) !in ix.owners
    ensures Add(ix, NewAccount(env, r)).Ok? && WellKeyed(NewAccount(env, r).licenses)
  {
    CollisionMeans(ix.owners.Keys, NewAccount(env, r).licenses.Keys);
  }

  /**
   A login keeps the index consistent and the owners it had, and a successful one returns the account that owns the
   license afterwards; it created that account exactly if nobody owned the license before.
   */
  lemma UniqueLockKeeps(ix: Index, env: Env, r: Request, allowCreate: bool)
    requires Consistent(ix) && HasFreeId(ix.accounts.Keys)
    ensures var o := UnderUniqueLock(ix, env, r, allowCreate);
      && Consistent(o.index)
      && (forall k | k in ix.owners :: k in o.index.owners && o.index.owners[k] == ix.owners[k])
      && (o.result.Ok? ==> RequestKey(r) in o.index.owners && o.index.owners[RequestKey(r)] == o.result.value.owner)
      && (o.result.Ok? ==> (o.result.value.created <==> RequestKey(r) !in ix.owners))
      && (o.result.Err? ==> o.index == ix)
  {
    LookUpMeans(ix, env, r);
    if LookUp(ix, env, r).NotFound? && MayCreate(r, allowCreate) {
      CreateKeeps(ix, env, r);
    }
  }

  lemma CreateKeeps(ix: Index, env: Env, r: Request)
    requires Consistent(ix) && HasFreeId(ix.accounts.Keys) && MayCreate(r, true) && RequestKey(r) !in ix.owners
    ensures Add(ix, NewAccount(env, r)).Ok?
    ensures var (ix', id) := Add(ix, NewAccount(env, r)).value;
      && Consistent(ix') && ix'.owners == ix.owners[RequestKey(r) := id]
  {
    CreateSucceeds(ix, env, r);
    AddKeeps(ix, NewAccount(env, r));
  }

  /** Logging in again with the same credentials finds the account that the first login created. */
  lemma LogInTwice(ix: Index, env: Env, env2: Env, r: Request, allowCreate: bool)
    requires Consistent(ix) && HasFreeId(ix.accounts.Keys)
    requires var o := LogIn(ix, env, r, allowCreate); o.result.Ok? && o.result.value.created
    ensures var o := LogIn(ix, env, r, allowCreate);
      && LookUp(o.index, env2, r) == Found(o.result.value.owner, o.result.value.account)
      && (HasFreeId(o.index.accounts.Keys) ==>
            LogIn(o.index, env2, r, allowCreate) == LoginOutcome(o.index, Ok(o.result.value.(created := false))))
  {
    LookUpMeans(ix, env, r);
    CreateSucceeds(ix, env, r);
  }

  // ---- every run of operations ----

  datatype Operation =
    | Adds(account: Account)         // a new account object
    | Readds(id: u32)                // the object of a registered account
    | Removes(id: u32)
    | AddsLicense(holder: u32, key: LicenseKey, license: License)
    | RemovesLicense(holder: u32, key: LicenseKey)
    | LogsIn(env: Env, request: Request, allowCreate: bool)

  /** One operation; add and login do not return while no id is free, and then change nothing. */
  ghost function Operate(ix: Index, op: Operation): Index {
    match op
    case Adds(a) =>
      if HasFreeId(ix.accounts.Keys) && WellKeyed(a.licenses) && Add(ix, a).Ok? then Add(ix, a).value.0 else ix
    case Readds(id) => if HasFreeId(ix.accounts.Keys) && id in ix.accounts then Readd(ix, id).0 else ix
    case Removes(id) => if Remove(ix, id).Ok? then Remove(ix, id).value else ix
    case AddsLicense(id, k, l) =>
      if id in ix.accounts && Files(k, l) && AddLicense(ix, id, k, l).Ok? then AddLicense(ix, id, k, l).value else ix
    case RemovesLicense(id, k) =>
      if id in ix.accounts && RemoveLicense(ix, id, k).Ok? then RemoveLicense(ix, id, k).value else ix
    case LogsIn(env, r, allow) => if HasFreeId(ix.accounts.Keys) then LogIn(ix, env, r, allow).index else ix
  }

  ghost function OperateAll(ix: Index, ops: seq<Operation>): Index {
    if ops == [] then ix else Operate(OperateAll(ix, ops[..|ops| - 1]), ops[|ops| - 1])
  }

  /** The operation adds a registered account that has no license. */
  ghost predicate Misfiles(ix: Index, op: Operation) {
    op.Readds? && HasFreeId(ix.accounts.Keys) && op.id in ix.accounts && ix.accounts[op.id].licenses == map[]
  }

  ghost predicate NeverMisfiles(ix: Index, ops: seq<Operation>) {
    ops == [] || (NeverMisfiles(ix, ops[..|ops| - 1])
                  && !Misfiles(OperateAll(ix, ops[..|ops| - 1]), ops[|ops| - 1]))
  }

  /** One operation keeps a consistent index consistent, exactly unless it adds a registered account without licenses. */
  lemma OperateExact(ix: Index, op: Operation)
    requires Consistent(ix)
    ensures Consistent(Operate(ix, op)) <==> !Misfiles(ix, op)
  {
    match op
    case Adds(a) =>
      if HasFreeId(ix.accounts.Keys) && WellKeyed(a.licenses) { AddKeeps(ix, a); }
    case Readds(id) =>
      if HasFreeId(ix.accounts.Keys) && id in ix.accounts { ReaddExact(ix, id); }
    case Removes(id) => RemoveKeeps(ix, id);
    case AddsLicense(id, k, l) =>
      if id in ix.accounts && Files(k, l) { AddLicenseKeeps(ix, id, k, l); }
    case RemovesLicense(id, k) =>
      if id in ix.accounts { RemoveLicenseKeeps(ix, id, k); }
    case LogsIn(env, r, allow) =>
      if HasFreeId(ix.accounts.Keys) { LogInKeeps(ix, env, r, allow); }
  }

  lemma LogInKeeps(ix: Index, env: Env, r: Request, allowCreate: bool)
    requires Consistent(ix) && HasFreeId(ix.accounts.Keys)
    ensures Consistent(LogIn(ix, env, r, allowCreate).index)
  {
    UniqueLockKeeps(ix, env, r, allowCreate);
  }

  /** The index agrees with the accounts after every run from an empty index. */
  lemma {:induction false} RunsKeepConsistent(force: bool, ops: seq<Operation>)
    requires NeverMisfiles(Index(force, map[], map[]), ops)
    ensures Consistent(OperateAll(Index(force, map[], map[]), ops))
  {
    if ops != [] {
      RunsKeepConsistent(force, ops[..|ops| - 1]);
      OperateExact(OperateAll(Index(force, map[], map[]), ops[..|ops| - 1]), ops[|ops| - 1]);
    }
  }

  // ---- logins racing each other ----

  /** A login between its two critical sections, or finished. */
  datatype Thread = Begun | Missed | Finished(result: Result<Login, LoginError>)

  datatype World = World(index: Index, threads: seq<Thread>)

  datatype Ask = Ask(request: Request, allowCreate: bool)

  /** One critical section of one login, or another caller adding an account or a license. Nothing is removed. */
  datatype Move = Runs(i: nat, env: Env) | Registers(account: Account) | Extends(id: u32, key: LicenseKey, license: License)

  ghost function Progress(w: World, asks: seq<Ask>, m: Move): World
    requires |w.threads| == |asks|
  {
    match m
    case Registers(a) => w.(index := Operate(w.index, Adds(a)))
    case Extends(id, k, l) => w.(index := Operate(w.index, AddsLicense(id, k, l)))
    case Runs(i, env) =>
      if i >= |asks| then w
      else match w.threads[i]
        case Finished(_) => w
        case Begun => w.(threads := w.threads[i := UnderSharedLock(w.index, env, asks[i].request)])
        case Missed =>
          if !HasFreeId(w.index.accounts.Keys) then w
          else
            var o := UnderUniqueLock(w.index, env, asks[i].request, asks[i].allowCreate);
            World(o.index, w.threads[i := Finished(o.result)])
  }

  function UnderSharedLock(ix: Index, env: Env, r: Request): Thread {
    match Malformed(r)
    case Some(e) => Finished(Err(e))
    case None =>
      match LookUp(ix, env, r)
      case NotFound => Missed
      case Refused(e) => Finished(Err(e))
      case Found(owner, a) => Finished(Ok(Login(owner, a, false)))
  }

  ghost function ProgressAll(w: World, asks: seq<Ask>, ms: seq<Move>): (w': World)
    requires |w.threads| == |asks|
    ensures |w'.threads| == |asks|
  {
    if ms == [] then w else Progress(ProgressAll(w, asks, ms[..|ms| - 1]), asks, ms[|ms| - 1])
  }

  predicate LoggedIn(t: Thread) { t.Finished? && t.result.Ok? }

  predicate Created(t: Thread) { LoggedIn(t) && t.result.value.created }

  /** Everyone logged in with a license has the account that owns it, and at most one of them created it. */
  ghost predicate Agreed(w: World, asks: seq<Ask>)
    requires |w.threads| == |asks|
  {
    && Consistent(w.index)
    && (forall i | 0 <= i < |asks| && LoggedIn(w.threads[i]) ::
          var k := RequestKey(asks[i].request);
          k in w.index.owners && w.index.owners[k] == w.threads[i].result.value.owner)
    && (forall i, j | 0 <= i < j < |asks| && Created(w.threads[i]) && Created(w.threads[j]) ::
          RequestKey(asks[i].request) != RequestKey(asks[j].request))
  }

  /** Owners that only grow leave finished logins right. */
  lemma GrowthKeepsAgreed(w: World, asks: seq<Ask>, ix': Index)
    requires |w.threads| == |asks| && Agreed(w, asks) && Consistent(ix')
    requires forall k | k in w.index.owners :: k in ix'.owners && ix'.owners[k] == w.index.owners[k]
    ensures Agreed(w.(index := ix'), asks)
  {
  }

  /** A thread may finish with a login that names the owner, and that claims the creation only if no other can. */
  lemma FinishKeepsAgreed(w: World, asks: seq<Ask>, i: nat, t: Thread)
    requires |w.threads| == |asks| && Agreed(w, asks) && i < |asks| && !w.threads[i].Finished?
    requires var k := RequestKey(asks[i].request);
      LoggedIn(t) ==> k in w.index.owners && w.index.owners[k] == t.result.value.owner
    requires var k := RequestKey(asks[i].request);
      Created(t) ==> forall j | 0 <= j < |asks| && Created(w.threads[j]) :: RequestKey(asks[j].request) != k
    ensures Agreed(w.(threads := w.threads[i := t]), asks)
  {
  }

  lemma RegisterKeepsAgreed(w: World, asks: seq<Ask>, a: Account)
    requires |w.threads| == |asks| && Agreed(w, asks)
    ensures Agreed(Progress(w, asks, Registers(a)), asks)
  {
    var ix := w.index;
    if HasFreeId(ix.accounts.Keys) && WellKeyed(a.licenses) {
      AddKeeps(ix, a);
      CollisionMeans(ix.owners.Keys, a.licenses.Keys);
      GrowthKeepsAgreed(w, asks, Operate(ix, Adds(a)));
    }
  }

  lemma ExtendKeepsAgreed(w: World, asks: seq<Ask>, id: u32, k: LicenseKey, l: License)
    requires |w.threads| == |asks| && Agreed(w, asks)
    ensures Agreed(Progress(w, asks, Extends(id, k, l)), asks)
  {
    var ix := w.index;
    if id in ix.accounts && Files(k, l) {
      AddLicenseKeeps(ix, id, k, l);
      GrowthKeepsAgreed(w, asks, Operate(ix, AddsLicense(id, k, l)));
    }
  }

  lemma SharedLockKeepsAgreed(w: World, asks: seq<Ask>, i: nat, env: Env)
    requires |w.threads| == |asks| && Agreed(w, asks) && i < |asks| && w.threads[i].Begun?
    ensures Agreed(Progress(w, asks, Runs(i, env)), asks)
  {
    LookUpMeans(w.index, env, asks[i].request);
    FinishKeepsAgreed(w, asks, i, UnderSharedLock(w.index, env, asks[i].request));
  }

  lemma UniqueLockKeepsAgreed(w: World, asks: seq<Ask>, i: nat, env: Env)
    requires |w.threads| == |asks| && Agreed(w, asks) && i < |asks| && w.threads[i].Missed?
    requires HasFreeId(w.index.accounts.Keys)
    ensures Agreed(Progress(w, asks, Runs(i, env)), asks)
  {
    var o := UnderUniqueLock(w.index, env, asks[i].request, asks[i].allowCreate);
    UniqueLockKeeps(w.index, env, asks[i].request, asks[i].allowCreate);
    GrowthKeepsAgreed(w, asks, o.index);
    FinishKeepsAgreed(w.(index := o.index), asks, i, Finished(o.result));
  }

  lemma ProgressKeepsAgreed(w: World, asks: seq<Ask>, m: Move)
    requires |w.threads| == |asks| && Agreed(w, asks)
    ensures Agreed(Progress(w, asks, m), asks)
  {
    match m
    case Registers(a) => RegisterKeepsAgreed(w, asks, a);
    case Extends(id, k, l) => ExtendKeepsAgreed(w, asks, id, k, l);
    case Runs(i, env) =>
      if i < |asks| && w.threads[i].Begun? {
        SharedLockKeepsAgreed(w, asks, i, env);
      } else if i < |asks| && w.threads[i].Missed? && HasFreeId(w.index.accounts.Keys) {
        UniqueLockKeepsAgreed(w, asks, i, env);
      }
  }

  /**
   Racing logins. Whatever the interleaving of the two critical sections, with no removal in between, logins with
   the same license that succeed all return the same account and at most one of them created it.
   */
  lemma {:induction false} RacingLogins(ix: Index, asks: seq<Ask>, ms: seq<Move>)
    requires Consistent(ix)
    ensures Agreed(ProgressAll(World(ix, seq(|asks|, _ => Begun)), asks, ms), asks)
  {
    if ms != [] {
      RacingLogins(ix, asks, ms[..|ms| - 1]);
      ProgressKeepsAgreed(ProgressAll(World(ix, seq(|asks|, _ => Begun)), asks, ms[..|ms| - 1]), asks, ms[|ms| - 1]);
    }
  }
}
