/**
 The AccountIndex class over shared, mutable Account objects. `view` is the value the object stands for; each method is
 proved against the operation of the same name on `Index`.
 */
module AccountObjects {
  import opened Bytes
  import opened Accounts
  import opened AccountIndexes
  import opened AccountLogins

  /** A shared Account: the fields as one record, updated in place. */
  class AccountObject {
    var fields: Account

    constructor (a: Account)
      ensures fields == a
    {
      fields := a;
    }
  }

  class AccountIndex {
    const forceAllTemporary: bool
    var byAccountId: map<u32, AccountObject>
    var byLicense: map<LicenseKey, AccountObject>
    ghost var view: Index

    ghost predicate Registered(a: AccountObject)
      reads this
    {
      exists id :: id in byAccountId && byAccountId[id] == a
    }

    /** `view` is what the maps and objects say, leaving aside the fields of one object. */
    ghost predicate RepresentsBut(a: AccountObject?)
      reads this, byAccountId.Values
    {
      && view.forceAllTemporary == forceAllTemporary
      && byAccountId.Keys == view.accounts.Keys
      && byLicense.Keys == view.owners.Keys
      && (forall id | id in byAccountId && byAccountId[id] != a :: byAccountId[id].fields == view.accounts[id])
      && (forall k | k in byLicense :: view.owners[k] in byAccountId && byAccountId[view.owners[k]] == byLicense[k])
    }

    ghost predicate Represents()
      reads this, byAccountId.Values
    {
      RepresentsBut(null)
    }

    ghost predicate Valid()
      reads this, byAccountId.Values
    {
      Represents() && Consistent(view)
    }

    constructor (forceAllTemporary: bool)
      ensures Valid() && view == Index(forceAllTemporary, map[], map[])
    {
      this.forceAllTemporary := forceAllTemporary;
      byAccountId, byLicense := map[], map[];
      view := Index(forceAllTemporary, map[], map[]);
    }

    /** In a valid index a registered object is registered once, under its own id. */
    lemma RegisteredOnce(a: AccountObject)
      requires Valid() && Registered(a)
      ensures a.fields.accountId in byAccountId && byAccountId[a.fields.accountId] == a
      ensures view.accounts[a.fields.accountId] == a.fields
      ensures forall id | id in byAccountId && byAccountId[id] == a :: id == a.fields.accountId
    {
    }

    /** Brings `view` up to date with the object of one account. */
    ghost method Refresh(a: AccountObject, was: u32)
      requires RepresentsBut(a) && was in byAccountId && byAccountId[was] == a
      requires forall id | id in byAccountId && byAccountId[id] == a :: id == was
      modifies this`view
      ensures Represents() && view == old(view).(accounts := old(view).accounts[was := a.fields])
    {
      view := view.(accounts := view.accounts[was := a.fields]);
    }

    /** The search for a free id. */
    method ChooseId(a: AccountObject)
      requires HasFreeId(byAccountId.Keys)
      modifies a
      ensures a.fields == old(a.fields).(accountId := Probe(byAccountId.Keys, old(a.fields.accountId)))
    {
      while a.fields.accountId in byAccountId || a.fields.accountId == 0 || a.fields.accountId == 0xFFFF_FFFF
        invariant Probe(byAccountId.Keys, a.fields.accountId) == Probe(byAccountId.Keys, old(a.fields.accountId))
        invariant a.fields == old(a.fields).(accountId := a.fields.accountId)
        decreases CyclicDistance(a.fields.accountId, SomeFreeId(byAccountId.Keys))
      {
        Nearer(a.fields.accountId, SomeFreeId(byAccountId.Keys));
        a.fields := a.fields.(accountId := NextId(a.fields.accountId));
      }
    }

    /** The seven map updates. */
    method File(a: AccountObject)
      requires Represents() && a.fields.accountId !in byAccountId
      modifies this
      ensures Represents() && view == Filed(old(view), a.fields)
      ensures byAccountId == old(byAccountId)[a.fields.accountId := a]
    {
      FileId(a);
      byLicense := Assigned(byLicense, a.fields.licenses.Keys, a);
      view := view.(owners := Assigned(view.owners, a.fields.licenses.Keys, a.fields.accountId));
    }

    method FileId(a: AccountObject)
      requires Represents() && a.fields.accountId !in byAccountId
      modifies this`byAccountId, this`view
      ensures Represents() && view == old(view).(accounts := old(view).accounts[a.fields.accountId := a.fields])
      ensures byAccountId == old(byAccountId)[a.fields.accountId := a]
    {
      byAccountId := byAccountId[a.fields.accountId := a];
      view := view.(accounts := view.accounts[a.fields.accountId := a.fields]);
    }

    /** What add_locked does once no license collides; `was` is the id of an object that is registered already. */
    method Insert(a: AccountObject, ghost was: u32)
      requires RepresentsBut(a) && HasFreeId(byAccountId.Keys)
      requires Registered(a) ==>
        was in byAccountId && byAccountId[was] == a && forall id | id in byAccountId && byAccountId[id] == a :: id == was
      modifies this, a
      ensures a.fields == old(a.fields).(accountId := Probe(old(byAccountId).Keys, old(a.fields.accountId)))
      ensures Represents() && byAccountId == old(byAccountId)[a.fields.accountId := a]
      ensures view == Filed(if old(Registered(a)) then old(view).(accounts := old(view).accounts[was := a.fields])
                            else old(view), a.fields)
    {
      ghost var again := Registered(a);
      ChooseId(a);
      assert RepresentsBut(a);
      if again {
        Refresh(a, was);
      } else {
        assert Represents();
      }
      File(a);
    }

    /**
     A new account is added as `Add` says, or refused with all maps and its id unchanged. An object that is registered
     already is handled as `Readd` says. The index stays valid exactly unless a registered account without a license is
     added.
     */
    method AddLocked(a: AccountObject) returns (r: Result<(), IndexError>)
      requires Valid() && WellKeyed(a.fields.licenses) && HasFreeId(view.accounts.Keys)
      modifies this, a
      ensures Represents()
      ensures Valid() <==> !old(Registered(a)) || old(a.fields.licenses) != map[]
      ensures !old(Registered(a)) ==>
        match Add(old(view), old(a.fields))
        case Ok((ix, id)) => r.Ok? && view == ix && byAccountId == old(byAccountId)[id := a]
        case Err(e) => r == Err(e) && view == old(view)
      ensures old(Registered(a)) ==>
        old(a.fields.accountId) in old(view).accounts
        && view == Readd(old(view), old(a.fields.accountId)).0
        && r == match Readd(old(view), old(a.fields.accountId)).1 { case Some(e) => Err(e) case None => Ok(()) }
      ensures r.Ok? ==> byAccountId == old(byAccountId)[a.fields.accountId := a]
      ensures r.Err? ==> byAccountId == old(byAccountId) && byLicense == old(byLicense)
                         && a.fields == old(a.fields).(isTemporary := a.fields.isTemporary)
    {
      ghost var was, ix, again := a.fields, view, Registered(a);
      if again {
        RegisteredOnce(a);
        ReaddExact(ix, was.accountId);
      } else {
        AddKeeps(ix, was);
      }
      if forceAllTemporary {
        a.fields := a.fields.(isTemporary := true);
      }
      assert RepresentsBut(a);
      assert a.fields == was.(isTemporary := forceAllTemporary || was.isTemporary);
      match FirstCollision(byLicense.Keys, a.fields.licenses.Keys) {
        case Some(kind) =>
          if again {
            Refresh(a, was.accountId);
          } else {
            assert Represents();
          }
          return Err(AccountExists(kind));
        case None =>
      }
      Insert(a, was.accountId);
      return Ok(());
    }

    static method AddBlank() returns (index: AccountIndex, a: AccountObject)
      ensures fresh(index) && fresh(a) && index.Valid() && index.byAccountId == map[1 := a]
      ensures index.view == Index(false, map[1 := BlankAccount(1, map[])], map[])
      ensures a.fields == BlankAccount(1, map[])
    {
      index := new AccountIndex(false);
      a := new AccountObject(BlankAccount(1, map[]));
      BlankAdded();
      assert index.byAccountId == map[];
      var _ := index.AddLocked(a);
      assert index.view.accounts[1] == a.fields;
    }

    /** A blank account added twice: the index is no longer valid. */
    static method AddBlankTwice() returns (index: AccountIndex)
      ensures !index.Valid() && index.byAccountId.Keys == {1, 2} && index.byAccountId[1] == index.byAccountId[2]
      ensures index.byAccountId[1].fields == BlankAccount(2, map[])
    {
      var a: AccountObject;
      index, a := AddBlank();
      BlankAddedTwice();
      assert index.Registered(a);
      var _ := index.AddLocked(a);
      assert index.view.accounts == map[1 := BlankAccount(2, map[]), 2 := BlankAccount(2, map[])];
      assert index.byAccountId[1].fields == index.view.accounts[1];
    }

    method RemoveAccount(id: u32) returns (r: Result<(), IndexError>)
      requires Valid()
      modifies this
      ensures Valid()
      ensures match Remove(old(view), id)
        case Ok(ix) => r.Ok? && view == ix && byAccountId == old(byAccountId) - {id}
        case Err(e) => r == Err(e) && view == old(view) && byAccountId == old(byAccountId)
    {
      if id !in byAccountId {
        return Err(NoSuchAccount);
      }
      var a := byAccountId[id];
      RemoveKeeps(view, id);
      view := Remove(view, id).value;
      byAccountId := byAccountId - {id};
      byLicense := byLicense - a.fields.licenses.Keys;
      return Ok(());
    }

    /** Changes the licenses of one registered account and the license map together. */
    method StoreLicenses(a: AccountObject, licenses: map<LicenseKey, License>, holders: map<LicenseKey, AccountObject>,
                         ghost owners: map<LicenseKey, u32>)
      requires Valid() && Registered(a)
      requires holders.Keys == owners.Keys
      requires forall k | k in holders :: owners[k] in byAccountId && byAccountId[owners[k]] == holders[k]
      modifies this`byLicense, this`view, a
      ensures Represents() && byLicense == holders
      ensures a.fields == old(a.fields).(licenses := licenses)
      ensures view == old(view).(accounts := old(view).accounts[a.fields.accountId := a.fields], owners := owners)
    {
      RegisteredOnce(a);
      a.fields := a.fields.(licenses := licenses);
      assert RepresentsBut(a);
      Refresh(a, a.fields.accountId);
      byLicense := holders;
      view := view.(owners := owners);
    }

    /** The six add_*_license functions, on a registered account. */
    method AddLicenseTo(a: AccountObject, k: LicenseKey, l: License) returns (r: Result<(), IndexError>)
      requires Valid() && Registered(a) && Files(k, l)
      modifies this, a
      ensures Valid()
      ensures byAccountId == old(byAccountId)
      ensures match AddLicense(old(view), old(a.fields.accountId), k, l)
        case Ok(ix) => r.Ok? && view == ix
        case Err(e) => r == Err(e) && e == AlreadyRegistered && view == old(view)
    {
      RegisteredOnce(a);
      AddLicenseKeeps(view, a.fields.accountId, k, l);
      if k in byLicense {
        return Err(AlreadyRegistered);
      }
      if k in a.fields.licenses {
        return Err(InAccountNotInIndex);
      }
      StoreLicenses(a, a.fields.licenses[k := l], byLicense[k := a], view.owners[k := a.fields.accountId]);
      return Ok(());
    }

    /** The six remove_*_license functions, on a registered account. */
    method RemoveLicenseFrom(a: AccountObject, k: LicenseKey) returns (r: Result<(), IndexError>)
      requires Valid() && Registered(a)
      modifies this, a
      ensures Valid()
      ensures byAccountId == old(byAccountId)
      ensures match RemoveLicense(old(view), old(a.fields.accountId), k)
        case Ok(ix) => r.Ok? && view == ix
        case Err(e) => r == Err(e) && e == NotRegisteredToAccount && view == old(view)
    {
      RegisteredOnce(a);
      RemoveLicenseKeeps(view, a.fields.accountId, k);
      if k !in a.fields.licenses {
        return Err(NotRegisteredToAccount);
      }
      if k !in byLicense {
        return Err(InAccountNotInIndex);
      }
      StoreLicenses(a, a.fields.licenses - {k}, byLicense - {k}, view.owners - {k});
      return Ok(());
    }

    /** No value can stand for the index: a license names an object that is not registered, or a license has lost its entry. */
    ghost predicate Corrupt()
      reads this, byAccountId.Values
    {
      || (exists k :: k in byLicense && !Registered(byLicense[k]))
      || (exists id, k :: id in byAccountId && k in byAccountId[id].fields.licenses && k !in byLicense)
    }

    lemma CorruptIsInvalid()
      requires Corrupt()
      ensures !Valid()
    {
    }

    /** add_*_license on an account that is not registered: the index stays valid exactly if the license is refused. */
    method AddLicenseToUnregistered(a: AccountObject, k: LicenseKey, l: License) returns (r: Result<(), IndexError>)
      requires Valid() && !Registered(a) && Files(k, l)
      modifies this`byLicense, a
      ensures Valid() <==> r.Err?
      ensures r.Err? ==> a.fields == old(a.fields) && byLicense == old(byLicense)
      ensures r == if k in old(byLicense) then Err(AlreadyRegistered)
                   else if k in old(a.fields.licenses) then Err(InAccountNotInIndex) else Ok(())
      ensures r.Ok? ==> byLicense == old(byLicense)[k := a] && a.fields == old(a.fields).(licenses := old(a.fields.licenses)[k := l])
    {
      if k in byLicense {
        return Err(AlreadyRegistered);
      }
      if k in a.fields.licenses {
        return Err(InAccountNotInIndex);
      }
      byLicense := byLicense[k := a];
      a.fields := a.fields.(licenses := a.fields.licenses[k := l]);
      assert k in byLicense && !Registered(byLicense[k]);
      CorruptIsInvalid();
      return Ok(());
    }

    /**
     remove_*_license on an account that is not registered: if a registered account has the same license it loses its entry,
     and the index is no longer valid; in every other case the call is refused.
     */
    method RemoveLicenseFromUnregistered(a: AccountObject, k: LicenseKey) returns (r: Result<(), IndexError>)
      requires Valid() && !Registered(a)
      modifies this`byLicense, a
      ensures Valid() <==> r.Err?
      ensures r.Err? ==> a.fields == old(a.fields) && byLicense == old(byLicense)
      ensures r == if k !in old(a.fields.licenses) then Err(NotRegisteredToAccount)
                   else if k !in old(byLicense) then Err(InAccountNotInIndex) else Ok(())
      ensures r.Ok? ==> byLicense == old(byLicense) - {k} && a.fields == old(a.fields).(licenses := old(a.fields.licenses) - {k})
    {
      if k !in a.fields.licenses {
        return Err(NotRegisteredToAccount);
      }
      if k !in byLicense {
        return Err(InAccountNotInIndex);
      }
      ghost var id := view.owners[k];
      assert k in byAccountId[id].fields.licenses;
      byLicense := byLicense - {k};
      a.fields := a.fields.(licenses := a.fields.licenses - {k});
      assert id in byAccountId && k in byAccountId[id].fields.licenses && k !in byLicense;
      CorruptIsInvalid();
      return Ok(());
    }

    /** The from_*_credentials_locked functions, on the maps themselves. */
    method FindLogin(env: Env, r: Request) returns (l: Lookup)
      requires Valid()
      ensures l == LookUp(view, env, r)
    {
      var k := RequestKey(r);
      if k !in byLicense {
        return NotFound;
      }
      var a := byLicense[k].fields;
      if k !in a.licenses {
        return NotFound;
      }
      var shared := Variation(r).Some? && IsShared(a);
      var wrong := WrongCredentials(r, a.licenses[k], shared);
      if wrong.Some? {
        return Refused(wrong.value);
      }
      if a.banEndTime != 0 && a.banEndTime >= env.now {
        return Refused(AccountBanned);
      }
      if shared {
        var id := env.variant(a.accountId, Variation(r).value);
        return Found(a.accountId, a.(isTemporary := true, accountId := id));
      }
      return Found(a.accountId, a);
    }

    /** The creation of an account at the end of the from_*_credentials functions. */
    method CreateLogin(env: Env, r: Request) returns (login: Login)
      requires Valid() && HasFreeId(view.accounts.Keys) && MayCreate(r, true) && RequestKey(r) !in view.owners
      modifies this
      ensures Valid() && Add(old(view), NewAccount(env, r)).Ok?
      ensures var (ix, id) := Add(old(view), NewAccount(env, r)).value; view == ix && login == Login(id, ix.accounts[id], true)
    {
      CreateSucceeds(view, env, r);
      var a := new AccountObject(NewAccount(env, r));
      assert Valid() && !Registered(a);
      var _ := AddLocked(a);
      return Login(a.fields.accountId, a.fields, true);
    }

    /** The from_*_credentials functions with nobody else running between the two lookups. */
    method FromCredentials(env: Env, r: Request, allowCreate: bool) returns (result: Result<Login, LoginError>)
      requires Valid() && HasFreeId(view.accounts.Keys)
      modifies this
      ensures Valid()
      ensures var o := LogIn(old(view), env, r, allowCreate); view == o.index && result == o.result
    {
      var malformed := Malformed(r);
      if malformed.Some? {
        return Err(malformed.value);
      }
      var l := FindLogin(env, r);
      if l.NotFound? {
        l := FindLogin(env, r);
      }
      if l.Found? {
        return Ok(Login(l.owner, l.account, false));
      } else if l.Refused? {
        return Err(l.error);
      } else if !MayCreate(r, allowCreate) {
        return Err(MissingAccount);
      }
      LookUpMeans(view, env, r);
      var login := CreateLogin(env, r);
      return Ok(login);
    }
  }
}
