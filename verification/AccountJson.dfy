/**
 Saving and loading accounts: Account::json, Account::Account(json) with its legacy format, and the license readers.
 Field names are an enumeration, and integers are the 64-bit signed integers that a JSON value stores.
 */
module AccountJson {
  import opened Bytes
  import opened Accounts

  datatype Field =
    | FormatVersion | AccountID | DCNTELicenses | DCLicenses | PCLicenses | GCLicenses | XBLicenses | BBLicenses
    | Flags | UserFlags | BanEndTime | LastPlayerName | AutoReplyMessage | Ep3CurrentMeseta | Ep3TotalMesetaEarned
    | BBTeamID | AutoPatchesEnabled
    | SerialNumber | AccessKey | Password | GamerTag | UserID | UserName
    | DCNTESerialNumber | DCNTEAccessKey | GCPassword | XBGamerTag | XBUserID | XBAccountID | BBUsername | BBPassword

  datatype Json = JInt(n: int) | JString(s: string) | JList(items: seq<Json>) | JDict(fields: map<Field, Json>)

  datatype ParseError = Missing | WrongType | Invalid

  const TWO32: int := 0x1_0000_0000
  const TWO64: int := 0x1_0000_0000_0000_0000

  function ToU32(n: int): u32 { n % TWO32 }

  function ToU64(n: int): u64 { n % TWO64 }

  /** How an unsigned 64-bit number is stored. */
  function Stored(u: u64): int { if u >= TWO64 / 2 then u - TWO64 else u }

  // ---- reading fields ----

  function Get(j: Json, f: Field): Result<Json, ParseError> {
    if !j.JDict? then Err(WrongType) else if f !in j.fields then Err(Missing) else Ok(j.fields[f])
  }

  function GetInt(j: Json, f: Field): Result<int, ParseError> {
    match Get(j, f)
    case Ok(JInt(n)) => Ok(n)
    case Ok(_) => Err(WrongType)
    case Err(e) => Err(e)
  }

  function GetString(j: Json, f: Field): Result<string, ParseError> {
    match Get(j, f)
    case Ok(JString(s)) => Ok(s)
    case Ok(_) => Err(WrongType)
    case Err(e) => Err(e)
  }

  function GetList(j: Json, f: Field): Result<seq<Json>, ParseError> {
    match Get(j, f)
    case Ok(JList(l)) => Ok(l)
    case Ok(_) => Err(WrongType)
    case Err(e) => Err(e)
  }

  /** A missing field reads as the default; one of the wrong type is still an error. */
  function OrElse<T>(r: Result<T, ParseError>, default: T): Result<T, ParseError> {
    if r == Err(Missing) then Ok(default) else r
  }

  // ---- licenses ----

  function KeyFor(kind: Kind, l: License): LicenseKey
    requires Suits(kind, l)
  {
    match kind
    case KindDCNTE => DCNTE(l.ntSerial)
    case KindDC => DC(l.serial)
    case KindPC => PC(l.serial)
    case KindGC => GC(l.gSerial)
    case KindXB => XB(l.xUserId)
    case KindBB => BB(l.bUsername)
  }

  predicate Suits(kind: Kind, l: License) {
    match kind
    case KindDCNTE => l.DCNTELicense?
    case KindDC => l.V1V2License?
    case KindPC => l.V1V2License?
    case KindGC => l.GCLicense?
    case KindXB => l.XBLicense?
    case KindBB => l.BBLicense?
  }

  /** The checks made by the from_json functions. */
  predicate Passes(l: License) {
    match l
    case DCNTELicense(s, k) => 0 < |s| <= 16 && 0 < |k| <= 16
    case V1V2License(n, k) => n != 0 && |k| == 8
    case GCLicense(n, k, p) => n != 0 && |k| == 12 && p != ""
    case XBLicense(tag, u, a) => tag != "" && u != 0 && a != 0
    case BBLicense(u, p) => 0 < |u| <= 16 && 0 < |p| <= 16
  }

  function LicenseToJson(l: License): Json {
    match l
    case DCNTELicense(s, k) => JDict(map[SerialNumber := JString(s), AccessKey := JString(k)])
    case V1V2License(n, k) => JDict(map[SerialNumber := JInt(n), AccessKey := JString(k)])
    case GCLicense(n, k, p) => JDict(map[SerialNumber := JInt(n), AccessKey := JString(k), Password := JString(p)])
    case XBLicense(tag, u, a) =>
      JDict(map[GamerTag := JString(tag), UserID := JInt(Stored(u)), AccountID := JInt(Stored(a))])
    case BBLicense(u, p) => JDict(map[UserName := JString(u), Password := JString(p)])
  }

  function Two<A, B>(a: Result<A, ParseError>, b: Result<B, ParseError>): Result<(A, B), ParseError> {
    if a.Err? then Err(a.error) else if b.Err? then Err(b.error) else Ok((a.value, b.value))
  }

  function ReadLicense(kind: Kind, j: Json): (r: Result<License, ParseError>)
    ensures r.Ok? ==> Suits(kind, r.value)
  {
    match kind
    case KindDCNTE =>
      (match Two(GetString(j, SerialNumber), GetString(j, AccessKey))
       case Ok((s, k)) => Ok(DCNTELicense(s, k))
       case Err(e) => Err(e))
    case KindGC =>
      (match Two(GetInt(j, SerialNumber), Two(GetString(j, AccessKey), GetString(j, Password)))
       case Ok((n, (k, p))) => Ok(GCLicense(ToU32(n), k, p))
       case Err(e) => Err(e))
    case KindXB =>
      (match Two(GetString(j, GamerTag), Two(GetInt(j, UserID), GetInt(j, AccountID)))
       case Ok((tag, (u, a))) => Ok(XBLicense(tag, ToU64(u), ToU64(a)))
       case Err(e) => Err(e))
    case KindBB =>
      (match Two(GetString(j, UserName), GetString(j, Password))
       case Ok((u, p)) => Ok(BBLicense(u, p))
       case Err(e) => Err(e))
    case _ =>
      (match Two(GetInt(j, SerialNumber), GetString(j, AccessKey))
       case Ok((n, k)) => Ok(V1V2License(ToU32(n), k))
       case Err(e) => Err(e))
  }

  function LicenseFromJson(kind: Kind, j: Json): (r: Result<License, ParseError>)
    ensures r.Ok? ==> Suits(kind, r.value) && Passes(r.value)
  {
    match ReadLicense(kind, j)
    case Ok(l) => if Passes(l) then Ok(l) else Err(Invalid)
    case Err(e) => Err(e)
  }

  lemma LicenseRoundTrip(kind: Kind, l: License)
    requires Suits(kind, l)
    ensures LicenseFromJson(kind, LicenseToJson(l)) == if Passes(l) then Ok(l) else Err(Invalid)
  {
  }

  // ---- accounts ----

  const KINDS: seq<Kind> := [KindDCNTE, KindDC, KindPC, KindGC, KindXB, KindBB]

  function ListField(kind: Kind): Field {
    match kind
    case KindDCNTE => DCNTELicenses
    case KindDC => DCLicenses
    case KindPC => PCLicenses
    case KindGC => GCLicenses
    case KindXB => XBLicenses
    case KindBB => BBLicenses
  }

  /** The order in which each unordered map, and the set of patches, happens to be listed. */
  datatype Orders = Orders(keys: Kind -> seq<LicenseKey>, patches: seq<string>)

  ghost predicate ListsAll(a: Account, o: Orders) {
    && (forall kind: Kind, k: LicenseKey :: k in o.keys(kind) <==> k in a.licenses && KindOf(k) == kind)
    && (forall p :: p in o.patches <==> p in a.autoPatchesEnabled)
  }

  function LicensesToJson(licenses: map<LicenseKey, License>, ks: seq<LicenseKey>): (js: seq<Json>)
    requires forall k | k in ks :: k in licenses
  {
    if ks == [] then [] else [LicenseToJson(licenses[ks[0]])] + LicensesToJson(licenses, ks[1..])
  }

  function PatchesToJson(ps: seq<string>): seq<Json> {
    if ps == [] then [] else [JString(ps[0])] + PatchesToJson(ps[1..])
  }

  ghost function AccountToJson(a: Account, o: Orders): Json
    requires ListsAll(a, o)
  {
    JDict(map[
      FormatVersion := JInt(1),
      AccountID := JInt(a.accountId),
      DCNTELicenses := JList(LicensesToJson(a.licenses, o.keys(KindDCNTE))),
      DCLicenses := JList(LicensesToJson(a.licenses, o.keys(KindDC))),
      PCLicenses := JList(LicensesToJson(a.licenses, o.keys(KindPC))),
      GCLicenses := JList(LicensesToJson(a.licenses, o.keys(KindGC))),
      XBLicenses := JList(LicensesToJson(a.licenses, o.keys(KindXB))),
      BBLicenses := JList(LicensesToJson(a.licenses, o.keys(KindBB))),
      Flags := JInt(a.flags),
      UserFlags := JInt(a.userFlags),
      BanEndTime := JInt(Stored(a.banEndTime)),
      LastPlayerName := JString(a.lastPlayerName),
      AutoReplyMessage := JString(a.autoReplyMessage),
      Ep3CurrentMeseta := JInt(a.ep3CurrentMeseta),
      Ep3TotalMesetaEarned := JInt(a.ep3TotalMesetaEarned),
      BBTeamID := JInt(a.bbTeamId),
      AutoPatchesEnabled := JList(PatchesToJson(o.patches))])
  }

  /** `emplace`: an entry that is there already stays. */
  function Emplace(m: map<LicenseKey, License>, k: LicenseKey, l: License): map<LicenseKey, License> {
    if k in m then m else m[k := l]
  }

  function ParseLicenses(kind: Kind, js: seq<Json>, acc: map<LicenseKey, License>)
    : Result<map<LicenseKey, License>, ParseError>
    decreases |js|
  {
    if js == [] then Ok(acc)
    else
      match LicenseFromJson(kind, js[0])
      case Err(e) => Err(e)
      case Ok(l) => ParseLicenses(kind, js[1..], Emplace(acc, KeyFor(kind, l), l))
  }

  function ParseKinds(j: Json, kinds: seq<Kind>, acc: map<LicenseKey, License>)
    : Result<map<LicenseKey, License>, ParseError>
    decreases |kinds|
  {
    if kinds == [] then Ok(acc)
    else
      match GetList(j, ListField(kinds[0]))
      case Err(e) => Err(e)
      case Ok(js) =>
        match ParseLicenses(kinds[0], js, acc)
        case Err(e) => Err(e)
        case Ok(m) => ParseKinds(j, kinds[1..], m)
  }

  function ParsePatches(js: seq<Json>, acc: set<string>): Result<set<string>, ParseError>
    decreases |js|
  {
    if js == [] then Ok(acc)
    else if !js[0].JString? then Err(WrongType)
    else ParsePatches(js[1..], acc + {js[0].s})
  }

  /** The credentials of a format-0 account: at most one of each kind, and nothing is validated. */
  function LegacyLicenses(id: u32, accessKey: string, ntSerial: string, ntKey: string, gcPassword: string,
                          tag: string, xbUser: u64, xbAccount: u64, bbUser: string, bbPassword: string)
    : map<LicenseKey, License>
  {
    (if |accessKey| == 12 then
       if gcPassword != "" then map[GC(id) := GCLicense(id, accessKey, gcPassword)] else map[]
     else if |accessKey| >= 8 then
       map[DC(id) := V1V2License(id, accessKey[..8]), PC(id) := V1V2License(id, accessKey[..8])]
     else map[])
    + (if ntSerial != "" && ntKey != "" then map[DCNTE(ntSerial) := DCNTELicense(ntSerial, ntKey)] else map[])
    + (if tag != "" && xbUser != 0 && xbAccount != 0 then map[XB(xbUser) := XBLicense(tag, xbUser, xbAccount)] else map[])
    + (if bbUser != "" && bbPassword != "" then map[BB(bbUser) := BBLicense(bbUser, bbPassword)] else map[])
  }

  function ParseLegacy(j: Json): Result<(u32, map<LicenseKey, License>), ParseError> {
    var strings :=
      Two(OrElse(GetString(j, AccessKey), ""), Two(OrElse(GetString(j, DCNTESerialNumber), ""),
      Two(OrElse(GetString(j, DCNTEAccessKey), ""), Two(OrElse(GetString(j, GCPassword), ""),
      OrElse(GetString(j, XBGamerTag), "")))));
    var more := Two(OrElse(GetInt(j, XBUserID), 0), Two(OrElse(GetInt(j, XBAccountID), 0),
      Two(OrElse(GetString(j, BBUsername), ""), OrElse(GetString(j, BBPassword), ""))));
    match Two(GetInt(j, SerialNumber), Two(strings, more))
    case Err(e) => Err(e)
    case Ok((n, ((key, (nts, (ntk, (pw, tag)))), (xu, (xa, (bu, bp)))))) =>
      Ok((ToU32(n), LegacyLicenses(ToU32(n), key, nts, ntk, pw, tag, ToU64(xu), ToU64(xa), bu, bp)))
  }

  function ParseCurrent(j: Json): Result<(u32, map<LicenseKey, License>), ParseError> {
    match Two(GetInt(j, AccountID), ParseKinds(j, KINDS, map[]))
    case Err(e) => Err(e)
    case Ok((id, licenses)) => Ok((ToU32(id), licenses))
  }

  function ParseProfile(j: Json, id: u32, licenses: map<LicenseKey, License>): Result<Account, ParseError> {
    var numbers := Two(OrElse(GetInt(j, Flags), 0), Two(OrElse(GetInt(j, UserFlags), 0), OrElse(GetInt(j, BanEndTime), 0)));
    var names := Two(OrElse(GetString(j, LastPlayerName), ""), OrElse(GetString(j, AutoReplyMessage), ""));
    var meseta := Two(OrElse(GetInt(j, Ep3CurrentMeseta), 0), Two(OrElse(GetInt(j, Ep3TotalMesetaEarned), 0),
      OrElse(GetInt(j, BBTeamID), 0)));
    match Two(numbers, Two(names, Two(meseta, OrElse(GetList(j, AutoPatchesEnabled), []))))
    case Err(e) => Err(e)
    case Ok(((flags, (userFlags, ban)), ((player, reply), ((ep3, (total, team)), patches)))) =>
      match ParsePatches(patches, {})
      case Err(e) => Err(e)
      case Ok(ps) =>
        Ok(Account(id, ToU32(flags), ToU32(userFlags), ToU64(ban), player, reply, ToU32(ep3), ToU32(total), ToU32(team),
                   false, ps, licenses))
  }

  function FromJson(j: Json): Result<Account, ParseError> {
    match OrElse(GetInt(j, FormatVersion), 0)
    case Err(e) => Err(e)
    case Ok(version) =>
      match if ToU64(version) == 0 then ParseLegacy(j) else ParseCurrent(j)
      case Err(e) => Err(e)
      case Ok((id, licenses)) => ParseProfile(j, id, licenses)
  }

  // ---- round trips ----

  predicate Within(m: map<LicenseKey, License>, whole: map<LicenseKey, License>) {
    forall k | k in m :: k in whole && m[k] == whole[k]
  }

  predicate AllPass(licenses: map<LicenseKey, License>) { forall k | k in licenses :: Passes(licenses[k]) }

  /** One list read back: its licenses are added, or reading fails if one of them does not pass. */
  lemma {:induction false} ListRoundTrip(kind: Kind, whole: map<LicenseKey, License>, ks: seq<LicenseKey>,
                                         acc: map<LicenseKey, License>)
    requires WellKeyed(whole) && Within(acc, whole)
    requires forall k | k in ks :: k in whole && KindOf(k) == kind
    ensures match ParseLicenses(kind, LicensesToJson(whole, ks), acc)
      case Ok(m) => Within(acc, m) && Within(m, whole) && forall k | k in ks :: k in m && Passes(whole[k])
      case Err(e) => e == Invalid && !AllPass(whole)
    decreases |ks|
  {
    if ks != [] {
      var k, rest := ks[0], ks[1..];
      FirstLicense(kind, whole, ks, acc);
      if Passes(whole[k]) {
        var acc' := Emplace(acc, k, whole[k]);
        ListRoundTrip(kind, whole, rest, acc');
        assert forall x | x in ks :: x == k || x in rest;
      }
    }
  }

  lemma FirstLicense(kind: Kind, whole: map<LicenseKey, License>, ks: seq<LicenseKey>, acc: map<LicenseKey, License>)
    requires ks != [] && WellKeyed(whole) && (forall k | k in ks :: k in whole && KindOf(k) == kind)
    ensures var l := whole[ks[0]];
      ParseLicenses(kind, LicensesToJson(whole, ks), acc)
      == if Passes(l) then ParseLicenses(kind, LicensesToJson(whole, ks[1..]), Emplace(acc, ks[0], l)) else Err(Invalid)
  {
    var l := whole[ks[0]];
    assert Files(ks[0], l);
    LicenseRoundTrip(kind, l);
    var js := LicensesToJson(whole, ks);
    assert js[0] == LicenseToJson(l) && js[1..] == LicensesToJson(whole, ks[1..]);
  }

  lemma {:induction false} KindsRoundTrip(a: Account, o: Orders, kinds: seq<Kind>, acc: map<LicenseKey, License>)
    requires WellKeyed(a.licenses) && ListsAll(a, o) && Within(acc, a.licenses)
    ensures match ParseKinds(AccountToJson(a, o), kinds, acc)
      case Ok(m) =>
        && Within(m, a.licenses)
        && (forall k | k in a.licenses && KindOf(k) in kinds :: k in m && Passes(a.licenses[k]))
        && Within(acc, m)
      case Err(e) => e == Invalid && !AllPass(a.licenses)
    decreases |kinds|
  {
    if kinds != [] {
      var ks := o.keys(kinds[0]);
      var js := LicensesToJson(a.licenses, ks);
      ListStored(a, o, kinds[0]);
      ListRoundTrip(kinds[0], a.licenses, ks, acc);
      match ParseLicenses(kinds[0], js, acc) {
        case Ok(m) => KindsRoundTrip(a, o, kinds[1..], m);
        case Err(_) =>
      }
    }
  }

  lemma ListStored(a: Account, o: Orders, kind: Kind)
    requires ListsAll(a, o)
    ensures GetList(AccountToJson(a, o), ListField(kind)) == Ok(LicensesToJson(a.licenses, o.keys(kind)))
  {
  }

  lemma {:induction false} PatchesRoundTrip(ps: seq<string>, acc: set<string>)
    ensures ParsePatches(PatchesToJson(ps), acc) == Ok(acc + set p | p in ps)
    decreases |ps|
  {
    if ps == [] {
      assert acc + (set p | p in ps) == acc;
    } else {
      var js := PatchesToJson(ps);
      assert js[1..] == PatchesToJson(ps[1..]);
      PatchesRoundTrip(ps[1..], acc + {ps[0]});
      assert acc + {ps[0]} + (set p | p in ps[1..]) == acc + set p | p in ps;
    }
  }

  /** What the saved document holds besides the license lists. */
  ghost predicate Saved(j: Json, a: Account, o: Orders) {
    && GetInt(j, FormatVersion) == Ok(1)
    && GetInt(j, AccountID) == Ok(a.accountId)
    && GetInt(j, Flags) == Ok(a.flags)
    && GetInt(j, UserFlags) == Ok(a.userFlags)
    && GetInt(j, BanEndTime) == Ok(Stored(a.banEndTime))
    && GetString(j, LastPlayerName) == Ok(a.lastPlayerName)
    && GetString(j, AutoReplyMessage) == Ok(a.autoReplyMessage)
    && GetInt(j, Ep3CurrentMeseta) == Ok(a.ep3CurrentMeseta)
    && GetInt(j, Ep3TotalMesetaEarned) == Ok(a.ep3TotalMesetaEarned)
    && GetInt(j, BBTeamID) == Ok(a.bbTeamId)
    && GetList(j, AutoPatchesEnabled) == Ok(PatchesToJson(o.patches))
  }

  lemma FieldsSaved(a: Account, o: Orders)
    requires ListsAll(a, o)
    ensures Saved(AccountToJson(a, o), a, o)
  {
  }

  lemma ProfileRoundTrip(j: Json, a: Account, o: Orders)
    requires Saved(j, a, o) && ListsAll(a, o)
    ensures ParseProfile(j, a.accountId, a.licenses) == Ok(a.(isTemporary := false))
  {
    PatchesRoundTrip(o.patches, {});
    assert {} + (set p | p in o.patches) == a.autoPatchesEnabled;
  }

  /** The current format, given what the license lists parse to. */
  lemma CurrentFormat(j: Json, a: Account, o: Orders)
    requires Saved(j, a, o) && ListsAll(a, o)
    ensures match ParseKinds(j, KINDS, map[])
      case Ok(m) => m == a.licenses ==> FromJson(j) == Ok(a.(isTemporary := false))
      case Err(e) => FromJson(j) == Err(e)
  {
    UsesCurrent(j);
    ProfileRoundTrip(j, a, o);
    assert ToU32(a.accountId) == a.accountId;
  }

  lemma UsesCurrent(j: Json)
    requires GetInt(j, FormatVersion) == Ok(1)
    ensures FromJson(j) == match ParseCurrent(j)
      case Err(e) => Err(e)
      case Ok((id, licenses)) => ParseProfile(j, id, licenses)
  {
    assert ToU64(1) == 1;
  }

  /**
   Saving and loading: whatever order the maps are listed in, loading gives the account back, except that it is no longer
   temporary, exactly if every license passes the checks; otherwise loading fails.
   */
  lemma AccountRoundTrip(a: Account, o: Orders)
    requires WellKeyed(a.licenses) && ListsAll(a, o)
    ensures FromJson(AccountToJson(a, o)) == if AllPass(a.licenses) then Ok(a.(isTemporary := false)) else Err(Invalid)
  {
    var j := AccountToJson(a, o);
    forall kind ensures kind in KINDS {
      KindListed(kind);
    }
    AllKindsRoundTrip(a, o, j, KINDS);
    FieldsSaved(a, o);
    CurrentFormat(j, a, o);
  }

  lemma AllKindsRoundTrip(a: Account, o: Orders, j: Json, kinds: seq<Kind>)
    requires WellKeyed(a.licenses) && ListsAll(a, o) && j == AccountToJson(a, o)
    requires forall kind :: kind in kinds
    ensures ParseKinds(j, kinds, map[]) == if AllPass(a.licenses) then Ok(a.licenses) else Err(Invalid)
  {
    KindsRoundTrip(a, o, kinds, map[]);
    var r := ParseKinds(j, kinds, map[]);
    if r.Ok? {
      assert forall k | k in a.licenses :: KindOf(k) in kinds && k in r.value && Passes(a.licenses[k]);
      assert r.value.Keys == a.licenses.Keys;
      assert r.value == a.licenses;
    }
  }

  lemma KindListed(kind: Kind)
    ensures kind in KINDS
  {
    assert KINDS[0] == KindDCNTE && KINDS[1] == KindDC && KINDS[2] == KindPC;
    assert KINDS[3] == KindGC && KINDS[4] == KindXB && KINDS[5] == KindBB;
  }

  /** The original format: no version, or version 0. */
  predicate IsLegacy(j: Json) {
    var version := OrElse(GetInt(j, FormatVersion), 0);
    version.Ok? && ToU64(version.value) == 0
  }

  lemma LegacyLicensesWellKeyed(id: u32, key: string, nts: string, ntk: string, pw: string, tag: string, xu: u64,
                                xa: u64, bu: string, bp: string)
    ensures WellKeyed(LegacyLicenses(id, key, nts, ntk, pw, tag, xu, xa, bu, bp))
    ensures |key| >= 8 && |key| != 12 ==>
      var ls := LegacyLicenses(id, key, nts, ntk, pw, tag, xu, xa, bu, bp);
      DC(id) in ls && ls[DC(id)] == V1V2License(id, key[..8])
  {
  }

  lemma ProfileKeeps(j: Json, id: u32, licenses: map<LicenseKey, License>)
    ensures var r := ParseProfile(j, id, licenses);
      r.Ok? ==> r.value.accountId == id && r.value.licenses == licenses && !r.value.isTemporary
  {
  }

  lemma LegacyParts(j: Json)
    requires ParseLegacy(j).Ok?
    ensures var (id, ls) := ParseLegacy(j).value;
      && WellKeyed(ls)
      && GetInt(j, SerialNumber).Ok? && id == ToU32(GetInt(j, SerialNumber).value)
      && (GetString(j, AccessKey).Ok? ==>
            var key := GetString(j, AccessKey).value;
            |key| >= 8 && |key| != 12 ==> DC(id) in ls && ls[DC(id)] == V1V2License(id, key[..8]))
  {
    var key := OrElse(GetString(j, AccessKey), "").value;
    var nts := OrElse(GetString(j, DCNTESerialNumber), "").value;
    var ntk := OrElse(GetString(j, DCNTEAccessKey), "").value;
    var pw := OrElse(GetString(j, GCPassword), "").value;
    var tag := OrElse(GetString(j, XBGamerTag), "").value;
    var xu, xa := ToU64(OrElse(GetInt(j, XBUserID), 0).value), ToU64(OrElse(GetInt(j, XBAccountID), 0).value);
    var bu, bp := OrElse(GetString(j, BBUsername), "").value, OrElse(GetString(j, BBPassword), "").value;
    var id := ToU32(GetInt(j, SerialNumber).value);
    LegacyLicensesWellKeyed(id, key, nts, ntk, pw, tag, xu, xa, bu, bp);
  }

  lemma LegacyWellKeyed(j: Json)
    requires IsLegacy(j) && FromJson(j).Ok?
    ensures WellKeyed(FromJson(j).value.licenses) && !FromJson(j).value.isTemporary
    ensures ParseLegacy(j).Ok? && FromJson(j).value.licenses == ParseLegacy(j).value.1
  {
    var (id, ls) := ParseLegacy(j).value;
    LegacyParts(j);
    ProfileKeeps(j, id, ls);
  }

  /** A legacy account survives one save and reload exactly if its licenses pass the checks of the new format. */
  lemma LegacyMigration(j: Json, o: Orders)
    requires IsLegacy(j) && FromJson(j).Ok? && ListsAll(FromJson(j).value, o)
    ensures var a := FromJson(j).value;
      FromJson(AccountToJson(a, o)) == if AllPass(a.licenses) then Ok(a) else Err(Invalid)
  {
    LegacyWellKeyed(j);
    AccountRoundTrip(FromJson(j).value, o);
  }

  /** The family that does not survive by its number: a legacy account with serial number 0 and a DC/PC access key. */
  lemma LegacyZeroSerial(j: Json, key: string, o: Orders)
    requires IsLegacy(j) && FromJson(j).Ok? && ListsAll(FromJson(j).value, o)
    requires GetInt(j, SerialNumber) == Ok(0) && GetString(j, AccessKey) == Ok(key) && |key| >= 8 && |key| != 12
    ensures FromJson(AccountToJson(FromJson(j).value, o)) == Err(Invalid)
  {
    LegacyMigration(j, o);
    LegacyWellKeyed(j);
    LegacyParts(j);
  }

  const EXAMPLE_KEY: string := "AAAAAAAA"

  function ExampleDocument(): Json { JDict(map[SerialNumber := JInt(0), AccessKey := JString(EXAMPLE_KEY)]) }

  lemma ExampleReads(j: Json)
    requires j == ExampleDocument()
    ensures IsLegacy(j) && GetInt(j, SerialNumber) == Ok(0) && GetString(j, AccessKey) == Ok(EXAMPLE_KEY)
    ensures ParseLegacy(j) == Ok((0, LegacyLicenses(0, EXAMPLE_KEY, "", "", "", "", 0, 0, "", "")))
  {
  }

  lemma ExampleLicenses()
    ensures LegacyLicenses(0, EXAMPLE_KEY, "", "", "", "", 0, 0, "", "").Keys == {DC(0), PC(0)}
    ensures |EXAMPLE_KEY| == 8
  {
  }

  lemma ExampleProfile(j: Json, ls: map<LicenseKey, License>)
    requires j == ExampleDocument()
    ensures var r := ParseProfile(j, 0, ls); r.Ok? && r.value.licenses == ls && r.value.autoPatchesEnabled == {}
  {
  }

  lemma ExampleLoads(j: Json) returns (a: Account)
    requires j == ExampleDocument()
    ensures IsLegacy(j) && GetInt(j, SerialNumber) == Ok(0) && GetString(j, AccessKey) == Ok(EXAMPLE_KEY)
    ensures FromJson(j) == Ok(a) && a.licenses.Keys == {DC(0), PC(0)} && a.autoPatchesEnabled == {}
  {
    var ls := LegacyLicenses(0, EXAMPLE_KEY, "", "", "", "", 0, 0, "", "");
    ExampleReads(j);
    ExampleLicenses();
    ExampleProfile(j, ls);
    a := ParseProfile(j, 0, ls).value;
  }

  lemma ExampleListed(a: Account) returns (o: Orders)
    requires a.licenses.Keys == {DC(0), PC(0)} && a.autoPatchesEnabled == {}
    ensures ListsAll(a, o)
  {
    o := Orders((kind: Kind) => if kind == KindDC then [DC(0)] else if kind == KindPC then [PC(0)] else [], []);
  }

  lemma ExampleFails(j: Json, a: Account, o: Orders)
    requires IsLegacy(j) && FromJson(j) == Ok(a) && ListsAll(a, o)
    requires GetInt(j, SerialNumber) == Ok(0) && GetString(j, AccessKey) == Ok(EXAMPLE_KEY)
    ensures FromJson(AccountToJson(a, o)) == Err(Invalid)
  {
    ExampleLicenses();
    LegacyZeroSerial(j, EXAMPLE_KEY, o);
  }

  /** Serial number 0 and the access key "AAAAAAAA": the document loads, and fails to load once it has been saved. */
  lemma LegacyExample(j: Json) returns (a: Account, o: Orders)
    requires j == ExampleDocument()
    ensures FromJson(j) == Ok(a) && ListsAll(a, o) && FromJson(AccountToJson(a, o)) == Err(Invalid)
  {
    a := ExampleLoads(j);
    o := ExampleListed(a);
    ExampleFails(j, a, o);
  }
}
