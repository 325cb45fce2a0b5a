/**
 AccountIndex: accounts by id, and for each license kind a map from the license's key to its owner, kept in step with
 the license maps inside the accounts. `Index` is the value of an AccountIndex object, with owners named by id.
 */
module AccountIndexes {
  import opened Bytes
  import opened Accounts

  datatype Index = Index(forceAllTemporary: bool, accounts: map<u32, Account>, owners: map<LicenseKey, u32>)

  datatype IndexError =
    | AccountExists(kind: Kind)       // add: the license is already registered
    | NoSuchAccount                   // remove: out_of_range
    | AlreadyRegistered               // add_*_license
    | InAccountNotInIndex             // add_*_license and remove_*_license: the two sides disagree
    | NotRegisteredToAccount          // remove_*_license

  /**
   The owner map holds exactly the license keys of the registered accounts and names their owner, and every account
   is filed under its own id.
   */
  ghost predicate Consistent(ix: Index) { IdsMatch(ix) && LicensesOwned(ix) && OwnersHold(ix) }

  ghost predicate IdsMatch(ix: Index) {
    forall id | id in ix.accounts ::
      ix.accounts[id].accountId == id && id != 0 && id != 0xFFFF_FFFF && WellKeyed(ix.accounts[id].licenses)
  }

  ghost predicate LicensesOwned(ix: Index) {
    forall id, k | id in ix.accounts && k in ix.accounts[id].licenses :: k in ix.owners && ix.owners[k] == id
  }

  ghost predicate OwnersHold(ix: Index) {
    forall k | k in ix.owners :: ix.owners[k] in ix.accounts && k in ix.accounts[ix.owners[k]].licenses
  }

  // ---- choosing an id ----

  predicate Usable(used: set<u32>, id: u32) { id !in used && id != 0 && id != 0xFFFF_FFFF }

  const ID_RANGE: nat := 0x8000_0000

  /** `(id + 1) & 0x7FFFFFFF` in 32 bits. */
  function NextId(id: u32): u32 { (id + 1) % ID_RANGE }

  ghost predicate HasFreeId(used: set<u32>) { exists f: u32 :: 1 <= f < ID_RANGE && f !in used }

  ghost function SomeFreeId(used: set<u32>): (f: u32)
    requires HasFreeId(used)
    ensures 1 <= f < ID_RANGE && f !in used
  {
    var f: u32 :| 1 <= f < ID_RANGE && f !in used;
    f
  }

  /** Steps of NextId from id to f. */
  ghost function CyclicDistance(id: u32, f: u32): nat
    requires f < ID_RANGE
  {
    if id >= ID_RANGE then ID_RANGE else if id <= f then f - id else f + ID_RANGE - id
  }

  lemma Nearer(id: u32, f: u32)
    requires f < ID_RANGE && id != f
    ensures NextId(id) < ID_RANGE && CyclicDistance(NextId(id), f) < CyclicDistance(id, f)
  {
    if id + 1 < ID_RANGE {
      assert NextId(id) == id + 1;
    } else if id + 1 == ID_RANGE {
      assert NextId(id) == 0;
    }
  }

  function Probe(used: set<u32>, id: u32): (r: u32)
    requires HasFreeId(used)
    ensures Usable(used, r)
    ensures Usable(used, id) ==> r == id
    decreases CyclicDistance(id, SomeFreeId(used))
  {
    if Usable(used, id) then id
    else
      Nearer(id, SomeFreeId(used));
      Probe(used, NextId(id))
  }

  /** y is met before r when stepping cyclically from x. */
  predicate MetBefore(x: u32, y: u32, r: u32) {
    if x <= r then x <= y < r else x <= y < ID_RANGE || y < r
  }

  lemma MetLater(x: u32, y: u32, r: u32)
    requires x < ID_RANGE && r < ID_RANGE && x != r && y != x && MetBefore(x, y, r)
    ensures MetBefore(NextId(x), y, r)
  {
    if x + 1 < ID_RANGE {
      assert NextId(x) == x + 1;
    } else {
      assert NextId(x) == 0;
    }
  }

  /** The id chosen is the first usable one in cyclic order after the one asked for. */
  lemma {:induction false} ProbeFindsFirst(used: set<u32>, id: u32)
    requires HasFreeId(used) && !Usable(used, id)
    ensures var r := Probe(used, id);
      1 <= r < ID_RANGE && forall y: u32 | MetBefore(NextId(id), y, r) :: !Usable(used, y)
    decreases CyclicDistance(id, SomeFreeId(used))
  {
    var next := NextId(id);
    Nearer(id, SomeFreeId(used));
    if !Usable(used, next) {
      ProbeFindsFirst(used, next);
      var r := Probe(used, next);
      forall y: u32 | MetBefore(next, y, r) ensures !Usable(used, y) {
        if y != next {
          MetLater(next, y, r);
        }
      }
    }
  }

  lemma {:induction false} RangeSize(n: nat) returns (s: set<u32>)
    requires n < ID_RANGE
    ensures |s| == n && forall x: u32 :: x in s <==> 1 <= x <= n
  {
    if n == 0 {
      s := {};
    } else {
      s := RangeSize(n - 1);
      s := s + {n};
    }
  }

  /** Pigeonhole: with fewer than 0x7FFFFFFF accounts there is a free id, so the search ends. */
  lemma FreeIdExists(used: set<u32>)
    requires |used| < ID_RANGE - 1
    ensures HasFreeId(used)
  {
    var all := RangeSize(ID_RANGE - 1);
    if !HasFreeId(used) {
      assert all <= used;
      SubsetSize(all, used);
    }
  }

  lemma {:induction false} SubsetSize<T>(a: set<T>, b: set<T>)
    requires a <= b
    ensures |a| <= |b|
  {
    assert b == a + (b - a);
  }

  // ---- operations ----

  predicate Collides(owners: set<LicenseKey>, licenses: set<LicenseKey>, kind: Kind) {
    exists k | k in licenses :: KindOf(k) == kind && k in owners
  }

  /** The checks of add_locked, in its order. */
  function FirstCollision(owners: set<LicenseKey>, licenses: set<LicenseKey>): Option<Kind> {
    if Collides(owners, licenses, KindDCNTE) then Some(KindDCNTE)
    else if Collides(owners, licenses, KindDC) then Some(KindDC)
    else if Collides(owners, licenses, KindPC) then Some(KindPC)
    else if Collides(owners, licenses, KindGC) then Some(KindGC)
    else if Collides(owners, licenses, KindXB) then Some(KindXB)
    else if Collides(owners, licenses, KindBB) then Some(KindBB)
    else None
  }

  lemma CollisionMeans(owners: set<LicenseKey>, licenses: set<LicenseKey>)
    ensures FirstCollision(owners, licenses) == None <==> owners !! licenses
  {
    if k :| k in owners && k in licenses {
      assert Collides(owners, licenses, KindOf(k));
    }
  }

  /** add_locked on an account that is not registered yet; also the id it ends up with. */
  function Add(ix: Index, a: Account): Result<(Index, u32), IndexError>
    requires HasFreeId(ix.accounts.Keys)
  {
    match FirstCollision(ix.owners.Keys, a.licenses.Keys)
    case Some(kind) => Err(AccountExists(kind))
    case None =>
      var id := Probe(ix.accounts.Keys, a.accountId);
      Ok((Filed(ix, a.(accountId := id, isTemporary := ix.forceAllTemporary || a.isTemporary)), id))
  }

  /** The map with v under each of the keys. */
  function Assigned<K, V>(m: map<K, V>, keys: set<K>, v: V): map<K, V> {
    map k | k in m.Keys + keys :: if k in keys then v else m[k]
  }

  /** The seven map updates of add_locked. */
  function Filed(ix: Index, a: Account): Index {
    Index(ix.forceAllTemporary, ix.accounts[a.accountId := a], Assigned(ix.owners, a.licenses.Keys, a.accountId))
  }

  /**
   add_locked on the object of an account that is registered already. A license of its own collides; without one the object
   gets another id and is filed under it too, so that the old id names an account whose id is the new one.
   */
  function Readd(ix: Index, id: u32): (Index, Option<IndexError>)
    requires HasFreeId(ix.accounts.Keys) && id in ix.accounts
  {
    var a := ix.accounts[id];
    var a1 := a.(isTemporary := ix.forceAllTemporary || a.isTemporary);
    match FirstCollision(ix.owners.Keys, a.licenses.Keys)
    case Some(kind) => (ix.(accounts := ix.accounts[id := a1]), Some(AccountExists(kind)))
    case None =>
      var a2 := a1.(accountId := Probe(ix.accounts.Keys, a.accountId));
      (Filed(ix.(accounts := ix.accounts[id := a2]), a2), None)
  }

  function Remove(ix: Index, id: u32): Result<Index, IndexError> {
    if id !in ix.accounts then Err(NoSuchAccount)
    else Ok(Index(ix.forceAllTemporary, ix.accounts - {id}, ix.owners - ix.accounts[id].licenses.Keys))
  }

  function AddLicense(ix: Index, id: u32, k: LicenseKey, l: License): Result<Index, IndexError>
    requires id in ix.accounts
  {
    var a := ix.accounts[id];
    if k in ix.owners then Err(AlreadyRegistered)
    else if k in a.licenses then Err(InAccountNotInIndex)
    else Ok(ix.(accounts := ix.accounts[id := a.(licenses := a.licenses[k := l])], owners := ix.owners[k := id]))
  }

  function RemoveLicense(ix: Index, id: u32, k: LicenseKey): Result<Index, IndexError>
    requires id in ix.accounts
  {
    var a := ix.accounts[id];
    if k !in a.licenses then Err(NotRegisteredToAccount)
    else if k !in ix.owners then Err(InAccountNotInIndex)
    else Ok(ix.(accounts := ix.accounts[id := a.(licenses := a.licenses - {k})], owners := ix.owners - {k}))
  }

  // ---- what they keep ----

  lemma FiledKeeps(ix: Index, a: Account)
    requires Consistent(ix) && WellKeyed(a.licenses)
    requires Usable(ix.accounts.Keys, a.accountId) && ix.owners.Keys !! a.licenses.Keys
    ensures Consistent(Filed(ix, a))
  {
  }

  lemma AddKeeps(ix: Index, a: Account)
    requires Consistent(ix) && HasFreeId(ix.accounts.Keys) && WellKeyed(a.licenses)
    ensures match Add(ix, a)
      case Ok((ix', id)) => Consistent(ix') && id !in ix.accounts && ix'.accounts[id].licenses == a.licenses
      case Err(e) => exists k | k in a.licenses :: k in ix.owners && e == AccountExists(KindOf(k))
  {
    CollisionMeans(ix.owners.Keys, a.licenses.Keys);
    if Add(ix, a).Ok? {
      FiledKeeps(ix, a.(accountId := Add(ix, a).value.1, isTemporary := ix.forceAllTemporary || a.isTemporary));
    }
  }

  /** Adding a registered account again is refused, and leaves the index consistent, exactly if the account has a license. */
  lemma ReaddExact(ix: Index, id: u32)
    requires Consistent(ix) && HasFreeId(ix.accounts.Keys) && id in ix.accounts
    ensures Consistent(Readd(ix, id).0) <==> ix.accounts[id].licenses != map[]
    ensures Readd(ix, id).1.Some? <==> ix.accounts[id].licenses != map[]
    ensures Readd(ix, id).0.owners == ix.owners
  {
    var ls := ix.accounts[id].licenses;
    CollisionMeans(ix.owners.Keys, ls.Keys);
    if ls != map[] {
      var k :| k in ls;
      assert k in ix.owners;
      ForcedKeeps(ix, id, ix.forceAllTemporary || ix.accounts[id].isTemporary);
    } else {
      var ix' := Readd(ix, id).0;
      assert ls.Keys == {};
      assert ix'.accounts[id].accountId != id;
      assert ix'.owners == ix.owners;
    }
  }

  lemma ForcedKeeps(ix: Index, id: u32, temporary: bool)
    requires Consistent(ix) && id in ix.accounts
    ensures Consistent(ix.(accounts := ix.accounts[id := ix.accounts[id].(isTemporary := temporary)]))
  {
    var ix' := ix.(accounts := ix.accounts[id := ix.accounts[id].(isTemporary := temporary)]);
    assert forall i | i in ix'.accounts :: ix'.accounts[i].licenses == ix.accounts[i].licenses;
  }

  lemma BlankAdded()
    ensures var ix: Index := Index(false, map[], map[]);
      HasFreeId(ix.accounts.Keys)
      && Add(ix, BlankAccount(1, map[])) == Ok((Index(false, map[1 := BlankAccount(1, map[])], map[]), 1))
  {
    var ix: Index := Index(false, map[], map[]);
    assert ix.accounts.Keys == {};
    FreeIdExists(ix.accounts.Keys);
    CollisionMeans(ix.owners.Keys, {});
    assert Assigned(ix.owners, {}, 1) == map[];
  }

  /** The input on which it fails: a blank account with id 1, added twice, is afterwards found under ids 1 and 2 as account 2. */
  lemma BlankAddedTwice()
    ensures var ix := Index(false, map[1 := BlankAccount(1, map[])], map[]);
      && Consistent(ix) && HasFreeId(ix.accounts.Keys)
      && var (ix', error) := Readd(ix, 1);
         && error == None && !Consistent(ix')
         && ix'.accounts == map[1 := BlankAccount(2, map[]), 2 := BlankAccount(2, map[])]
  {
    var ix := Index(false, map[1 := BlankAccount(1, map[])], map[]);
    assert 2 !in ix.accounts.Keys;
    ReaddExact(ix, 1);
    assert NextId(1) == 2;
    assert Probe(ix.accounts.Keys, 1) == Probe(ix.accounts.Keys, 2) == 2;
  }

  lemma OneOwner(ix: Index, i: u32, j: u32, k: LicenseKey)
    requires LicensesOwned(ix) && i in ix.accounts && j in ix.accounts
    requires k in ix.accounts[i].licenses && k in ix.accounts[j].licenses
    ensures i == j
  {
    assert ix.owners[k] == i && ix.owners[k] == j;
  }

  lemma RemoveKeeps(ix: Index, id: u32)
    requires Consistent(ix)
    ensures match Remove(ix, id)
      case Ok(ix') => Consistent(ix') && id !in ix'.accounts
      case Err(_) => id !in ix.accounts
  {
    if id in ix.accounts {
      var ix' := Remove(ix, id).value;
      forall i, k | i in ix'.accounts && k in ix'.accounts[i].licenses
        ensures k in ix'.owners && ix'.owners[k] == i
      {
        if k in ix.accounts[id].licenses {
          OneOwner(ix, i, id, k);
        }
      }
      forall k | k in ix'.owners
        ensures ix'.owners[k] in ix'.accounts && k in ix'.accounts[ix'.owners[k]].licenses
      {
        assert ix'.owners[k] == ix.owners[k];
      }
    }
  }

  /** The two sides of the index never disagree, so the internal error is never raised. */
  lemma AddLicenseKeeps(ix: Index, id: u32, k: LicenseKey, l: License)
    requires Consistent(ix) && id in ix.accounts && Files(k, l)
    ensures match AddLicense(ix, id, k, l)
      case Ok(ix') => Consistent(ix') && k !in ix.owners && ix'.owners[k] == id
      case Err(e) => e == AlreadyRegistered && k in ix.owners
  {
  }

  lemma RemoveLicenseKeeps(ix: Index, id: u32, k: LicenseKey)
    requires Consistent(ix) && id in ix.accounts
    ensures match RemoveLicense(ix, id, k)
      case Ok(ix') => Consistent(ix') && ix.owners[k] == id && k !in ix'.owners
      case Err(e) => e == NotRegisteredToAccount && k !in ix.accounts[id].licenses
  {
  }

  lemma AssignedUndone<K, V>(m: map<K, V>, keys: set<K>, v: V)
    requires m.Keys !! keys
    ensures Assigned(m, keys, v) - keys == m
  {
  }

  lemma RemoveUndoesFiled(ix: Index, a: Account)
    requires a.accountId !in ix.accounts && ix.owners.Keys !! a.licenses.Keys
    ensures Remove(Filed(ix, a), a.accountId) == Ok(ix)
  {
    AssignedUndone(ix.owners, a.licenses.Keys, a.accountId);
    assert ix.accounts[a.accountId := a] - {a.accountId} == ix.accounts;
  }

  /** Removing what was just added gives the index back. */
  lemma RemoveUndoesAdd(ix: Index, a: Account)
    requires HasFreeId(ix.accounts.Keys) && Add(ix, a).Ok?
    ensures var (ix', id) := Add(ix, a).value; Remove(ix', id) == Ok(ix)
  {
    CollisionMeans(ix.owners.Keys, a.licenses.Keys);
    var id := Add(ix, a).value.1;
    RemoveUndoesFiled(ix, a.(accountId := id, isTemporary := ix.forceAllTemporary || a.isTemporary));
  }

  lemma RemoveUndoesAddLicense(ix: Index, id: u32, k: LicenseKey, l: License)
    requires Consistent(ix) && id in ix.accounts && AddLicense(ix, id, k, l).Ok?
    ensures RemoveLicense(AddLicense(ix, id, k, l).value, id, k) == Ok(ix)
  {
    var a := ix.accounts[id];
    assert a.licenses[k := l] - {k} == a.licenses;
    assert ix.owners[k := id] - {k} == ix.owners;
    var ix' := AddLicense(ix, id, k, l).value;
    assert ix'.accounts[id := a] == ix.accounts;
  }
}
