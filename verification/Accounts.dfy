/**
 Accounts and licenses. The six license maps of an account are held as one map whose keys carry the kind, so that
 restricting it to a kind gives the source's map; the six secondary maps of the index are treated the same way.
 */
module Accounts {
  import opened Bytes

  datatype Kind = KindDCNTE | KindDC | KindPC | KindGC | KindXB | KindBB

  datatype LicenseKey =
    | DCNTE(serialText: string)
    | DC(dcSerial: u32)
    | PC(pcSerial: u32)
    | GC(gcSerial: u32)
    | XB(userId: u64)
    | BB(username: string)

  datatype License =
    | DCNTELicense(ntSerial: string, ntAccessKey: string)
    | V1V2License(serial: u32, accessKey: string)
    | GCLicense(gSerial: u32, gAccessKey: string, gPassword: string)
    | XBLicense(gamertag: string, xUserId: u64, xAccountId: u64)
    | BBLicense(bUsername: string, bPassword: string)

  function KindOf(k: LicenseKey): Kind {
    match k
    case DCNTE(_) => KindDCNTE
    case DC(_) => KindDC
    case PC(_) => KindPC
    case GC(_) => KindGC
    case XB(_) => KindXB
    case BB(_) => KindBB
  }

  /** A license is filed under its own serial number, user ID or user name, in a map of its kind. */
  predicate Files(k: LicenseKey, l: License) {
    match k
    case DCNTE(s) => l.DCNTELicense? && l.ntSerial == s
    case DC(n) => l.V1V2License? && l.serial == n
    case PC(n) => l.V1V2License? && l.serial == n
    case GC(n) => l.GCLicense? && l.gSerial == n
    case XB(n) => l.XBLicense? && l.xUserId == n
    case BB(u) => l.BBLicense? && l.bUsername == u
  }

  predicate WellKeyed(licenses: map<LicenseKey, License>) {
    forall k | k in licenses :: Files(k, licenses[k])
  }

  datatype Account = Account(
    accountId: u32, flags: u32, userFlags: u32, banEndTime: u64, lastPlayerName: string, autoReplyMessage: string,
    ep3CurrentMeseta: u32, ep3TotalMesetaEarned: u32, bbTeamId: u32, isTemporary: bool,
    autoPatchesEnabled: set<string>, licenses: map<LicenseKey, License>)

  function BlankAccount(id: u32, licenses: map<LicenseKey, License>): Account {
    Account(id, 0, 0, 0, "", "", 0, 0, 0, false, {}, licenses)
  }

  /** Account::Flag::IS_SHARED_ACCOUNT is the top bit. */
  predicate IsShared(a: Account) { a.flags >= 0x8000_0000 }
}
