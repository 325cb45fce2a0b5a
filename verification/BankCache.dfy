/**
 The bank of a Blue Burst client: loaded lazily, switched between slots, and written back. Files are maps from slots
 to contents. `State` is the value of the client's fields and the files; `Logical` is the bank a player would say is
 in a slot, wherever it currently lives.
 */
module BankCache {
  import opened Bytes

  /** An item: everything but its stack count, the count byte data1[5], and the bank's own count. */
  datatype Item = Item(data: seq<byte>, count: byte, amount: u16)

  datatype Bank = Bank(meseta: u32, items: seq<Item>)

  /** `bank` is the fixed bank of 200 entries inside a character file. */
  datatype Character = Character(playTimeSeconds: u32, bank: Bank)

  /** Which item data is stackable, by the server's stack limits. */
  type Stackable = seq<byte> -> bool

  const SHARED: int := -1
  const CHARACTER_BANK_SLOTS: nat := 200

  /** update_bank_data_after_load for one item: the bank's count wins over the item's. */
  function NormalizedItem(stackable: Stackable, i: Item): Item {
    if stackable(i.data) then i.(count := i.amount % 256) else i.(amount := 1)
  }

  function Normalized(stackable: Stackable, b: Bank): Bank {
    b.(items := seq(|b.items|, i requires 0 <= i < |b.items| => NormalizedItem(stackable, b.items[i])))
  }

  lemma NormalizedTwice(stackable: Stackable, b: Bank)
    ensures Normalized(stackable, Normalized(stackable, b)) == Normalized(stackable, b)
  {
  }

  /** Storing a bank in a character keeps what fits. */
  function Cut(b: Bank): Bank {
    if |b.items| <= CHARACTER_BANK_SLOTS then b else b.(items := b.items[..CHARACTER_BANK_SLOTS])
  }

  /** Every negative index names the shared bank's file. */
  function Slot(index: int): int { if index < 0 then SHARED else index }

  datatype State = State(
    stackable: Stackable,
    bankFiles: map<int, Bank>, characterFiles: map<int, Character>,
    systemLoaded: bool, overlay: bool, character: Option<Character>, bank: Option<Bank>,
    characterIndex: int, bankIndex: int,
    shouldUpdatePlayTime: bool, lastPlayTimeUpdate: u64)

  datatype Failure = Inaccessible | NoIndex | NoCharacterFile | NoSystem | NoCharacter | NoBank

  // ---- operations ----

  /** bank_file is about to take the bank from the current character's file, and the character is not loaded. */
  predicate WantsCharacter(s: State) {
    && !s.overlay && s.bank.None? && s.character.None?
    && Slot(s.bankIndex) !in s.bankFiles && s.bankIndex == s.characterIndex >= 0
  }

  /**
   load_all_files, as far as banks are concerned. It also loads the bank and enforces stack limits on it, but its caller
   replaces that bank by the character's own.
   */
  function LoadCharacter(s: State, now: u64): State {
    var s1 := s.(systemLoaded := true);
    if s.characterIndex in s.characterFiles then
      s1.(character := Some(s.characterFiles[s.characterIndex]), lastPlayTimeUpdate := now)
    else s1
  }

  function Prepared(s: State, now: u64): State { if WantsCharacter(s) then LoadCharacter(s, now) else s }

  /** What bank_file finds when nothing is loaded. */
  function Found(s: State): Result<Bank, Failure> {
    if Slot(s.bankIndex) in s.bankFiles then Ok(s.bankFiles[Slot(s.bankIndex)])
    else if s.bankIndex == s.characterIndex then
      if s.character.Some? then Ok(s.character.value.bank)
      else if s.characterIndex < 0 then Err(NoIndex) else Err(NoCharacterFile)
    else if s.bankIndex >= 0 then
      if s.bankIndex in s.characterFiles then Ok(s.characterFiles[s.bankIndex].bank) else Err(NoCharacterFile)
    else Ok(Bank(0, []))
  }

  function LoadBank(s: State, now: u64): Result<State, Failure> {
    if s.overlay then Err(Inaccessible)
    else if s.bank.Some? then Ok(s)
    else match Found(Prepared(s, now))
      case Ok(b) => Ok(Prepared(s, now).(bank := Some(Normalized(s.stackable, b))))
      case Err(e) => Err(e)
  }

  function SaveBank(s: State): Result<State, Failure> {
    if s.bank.None? then Err(NoBank) else Ok(s.(bankFiles := s.bankFiles[Slot(s.bankIndex) := s.bank.value]))
  }

  function ChangeBank(s: State, index: int): State {
    (if s.bank.Some? then SaveBank(s).value.(bank := None) else s).(bankIndex := index)
  }

  /** Whole seconds since the last update, in the source's unsigned arithmetic. */
  function Played(c: Character, now: u64, last: u64): Character {
    var micros := if now >= last then now - last else now + 0x1_0000_0000_0000_0000 - last;
    c.(playTimeSeconds := (c.playTimeSeconds + micros / 1000000) % 0x1_0000_0000)
  }

  function PlayTimeUpdated(s: State, now: u64): State
    requires s.character.Some?
  {
    if !s.shouldUpdatePlayTime then s
    else
      var c := Played(s.character.value, now, s.lastPlayTimeUpdate);
      var c' := if s.bank.Some? && s.bankIndex == s.characterIndex then c.(bank := Cut(s.bank.value)) else c;
      s.(character := Some(c'), lastPlayTimeUpdate := now)
  }

  function SaveCharacter(s: State, now: u64): Result<State, Failure> {
    if !s.systemLoaded then Err(NoSystem)
    else if s.character.None? then Err(NoCharacter)
    else
      var s1 := PlayTimeUpdated(s, now);
      Ok(s1.(characterFiles := s1.characterFiles[s1.characterIndex := s1.character.value]))
  }

  /** save_all, of which a failing step ends the rest. */
  function SaveAll(s: State, now: u64): Result<State, Failure> {
    if s.character.Some? && SaveCharacter(s, now).Err? then SaveCharacter(s, now)
    else
      var s1 := if s.character.Some? then SaveCharacter(s, now).value else s;
      if s1.bank.Some? then SaveBank(s1) else Ok(s1)
  }

  function UnloadCharacter(s: State, now: u64): Result<State, Failure> {
    if s.character.None? then Ok(s)
    else match SaveCharacter(s, now)
      case Err(e) => Err(e)
      case Ok(s1) =>
        var s2 := if s1.bank.Some? then SaveBank(s1).value else s1;
        Ok(s2.(character := None, bank := None))
  }

  datatype Op =
    | Loads(now: u64) | Changes(index: int) | SavesBank | SavesCharacter(now: u64) | SavesAll(now: u64) | Unloads(now: u64)
    | Edits(bank: Bank)      // the caller changes the loaded bank

  /** An operation; one that throws leaves the state alone, except that loading may have prepared it. */
  function Apply(s: State, op: Op): State {
    var r := match op
      case Loads(now) => LoadBank(s, now)
      case Changes(index) => Ok(ChangeBank(s, index))
      case SavesBank => SaveBank(s)
      case SavesCharacter(now) => SaveCharacter(s, now)
      case SavesAll(now) => SaveAll(s, now)
      case Unloads(now) => UnloadCharacter(s, now)
      case Edits(b) => if s.bank.Some? then Ok(s.(bank := Some(b))) else Err(NoBank);
    if r.Ok? then r.value else if op.Loads? then Prepared(s, op.now) else s
  }

  function ApplyAll(s: State, ops: seq<Op>): State {
    if ops == [] then s else Apply(ApplyAll(s, ops[..|ops| - 1]), ops[|ops| - 1])
  }

  // ---- the bank in a slot ----

  function Stored(s: State, slot: int): Option<Bank> {
    if slot in s.bankFiles then Some(s.bankFiles[slot])
    else if slot == SHARED then Some(Bank(0, []))
    else if slot == s.characterIndex && s.character.Some? then Some(s.character.value.bank)
    else if slot in s.characterFiles then Some(s.characterFiles[slot].bank)
    else None
  }

  /** The bank in a slot: the loaded one if it is that slot's, else the stored one; counts normalised. */
  function Logical(s: State, slot: int): Option<Bank> {
    var b := if s.bank.Some? && Slot(s.bankIndex) == slot then s.bank else Stored(s, slot);
    if b.Some? then Some(Normalized(s.stackable, b.value)) else None
  }

  /** A selected character; indexes of slots. */
  predicate Selected(s: State) { s.characterIndex >= 0 }

  /** Loading the character's file changes no slot. */
  lemma PreparedKeeps(s: State, now: u64, slot: int)
    requires Selected(s)
    ensures Selected(Prepared(s, now)) && Logical(Prepared(s, now), slot) == Logical(s, slot)
    ensures Prepared(s, now).bank == s.bank && Prepared(s, now).bankIndex == s.bankIndex
    ensures Prepared(s, now).stackable == s.stackable
  {
  }

  /** What loading gives is the logical bank of the current slot; it fails only if there is none, or under an overlay. */
  lemma LoadGivesLogical(s: State, now: u64)
    requires Selected(s)
    ensures match LoadBank(s, now)
      case Ok(s') => s'.bank.Some? && Logical(s, Slot(s.bankIndex)) == Some(Normalized(s.stackable, s'.bank.value))
      case Err(e) => e == Inaccessible || Logical(s, Slot(s.bankIndex)) == None
  {
    PreparedKeeps(s, now, Slot(s.bankIndex));
    if s.bank.Some? {
      NormalizedTwice(s.stackable, s.bank.value);
    } else if Found(Prepared(s, now)).Ok? {
      NormalizedTwice(s.stackable, Found(Prepared(s, now)).value);
    }
  }

  lemma LoadKeeps(s: State, now: u64, slot: int)
    requires Selected(s) && slot >= SHARED
    ensures Selected(Apply(s, Loads(now))) && Logical(Apply(s, Loads(now)), slot) == Logical(s, slot)
  {
    PreparedKeeps(s, now, slot);
    var s1 := Prepared(s, now);
    if !s.overlay && s.bank.None? && Found(s1).Ok? {
      NormalizedTwice(s.stackable, Found(s1).value);
    }
  }

  lemma ChangeKeeps(s: State, index: int, slot: int)
    requires Selected(s) && slot >= SHARED
    ensures Selected(ChangeBank(s, index)) && Logical(ChangeBank(s, index), slot) == Logical(s, slot)
  {
  }

  lemma SaveBankKeeps(s: State, slot: int)
    requires Selected(s) && slot >= SHARED && s.bank.Some?
    ensures Selected(SaveBank(s).value) && Logical(SaveBank(s).value, slot) == Logical(s, slot)
  {
  }

  /** Saving the character may commit the bank to it, which only a slot whose bank is loaded can see. */
  lemma SaveCharacterKeeps(s: State, now: u64, slot: int)
    requires Selected(s) && slot >= SHARED && SaveCharacter(s, now).Ok?
    ensures var s' := SaveCharacter(s, now).value;
      && Logical(s', slot) == Logical(s, slot)
      && s' == s.(character := s'.character, characterFiles := s'.characterFiles, lastPlayTimeUpdate := s'.lastPlayTimeUpdate)
      && s'.character.Some? && s.characterIndex in s'.characterFiles
      && s'.characterFiles[s.characterIndex] == s'.character.value
  {
  }

  lemma UnloadKeeps(s: State, now: u64, slot: int)
    requires Selected(s) && slot >= SHARED && s.character.Some? && UnloadCharacter(s, now).Ok?
    ensures Logical(UnloadCharacter(s, now).value, slot) == Logical(s, slot)
  {
    SaveCharacterKeeps(s, now, slot);
  }

  lemma SaveAllKeeps(s: State, now: u64, slot: int)
    requires Selected(s) && slot >= SHARED && SaveAll(s, now).Ok?
    ensures Selected(SaveAll(s, now).value) && Logical(SaveAll(s, now).value, slot) == Logical(s, slot)
  {
    if s.character.Some? {
      SaveCharacterKeeps(s, now, slot);
    }
    var s1 := if s.character.Some? then SaveCharacter(s, now).value else s;
    if s1.bank.Some? {
      SaveBankKeeps(s1, slot);
    }
  }

  lemma EditKeeps(s: State, b: Bank, slot: int)
    requires Selected(s) && slot >= SHARED
    ensures Selected(Apply(s, Edits(b)))
    ensures Logical(Apply(s, Edits(b)), slot) ==
      if s.bank.Some? && slot == Slot(s.bankIndex) then Some(Normalized(s.stackable, b)) else Logical(s, slot)
  {
  }

  /** No operation but an edit changes any slot, and an edit changes only the slot whose bank is loaded. */
  lemma OpKeeps(s: State, op: Op, slot: int)
    requires Selected(s) && slot >= SHARED
    ensures Selected(Apply(s, op))
    ensures Logical(Apply(s, op), slot) ==
      if op.Edits? && s.bank.Some? && slot == Slot(s.bankIndex) then Some(Normalized(s.stackable, op.bank))
      else Logical(s, slot)
  {
    match op
    case Loads(now) => LoadKeeps(s, now, slot);
    case Changes(index) => ChangeKeeps(s, index, slot);
    case SavesBank =>
      if s.bank.Some? { SaveBankKeeps(s, slot); }
    case SavesCharacter(now) =>
      if SaveCharacter(s, now).Ok? { SaveCharacterKeeps(s, now, slot); }
    case SavesAll(now) =>
      if SaveAll(s, now).Ok? { SaveAllKeeps(s, now, slot); }
    case Unloads(now) =>
      if s.character.Some? && SaveCharacter(s, now).Ok? { UnloadKeeps(s, now, slot); }
    case Edits(b) => EditKeeps(s, b, slot);
  }

  lemma StackableStays(s: State, op: Op)
    ensures Apply(s, op).stackable == s.stackable
  {
  }

  /** The slot as a plain map would have it: the last edit made while it was loaded, or else what was there before. */
  function LastEdit(s: State, ops: seq<Op>, slot: int): Option<Bank> {
    if ops == [] then Logical(s, slot)
    else
      var init, op := ops[..|ops| - 1], ops[|ops| - 1];
      var before := ApplyAll(s, init);
      if op.Edits? && before.bank.Some? && slot == Slot(before.bankIndex) then Some(Normalized(s.stackable, op.bank))
      else LastEdit(s, init, slot)
  }

  /**
   The cache refines a map from slots to banks: after any sequence of loading, switching, saving and unloading, every slot
   holds its last edit.
   */
  lemma {:induction false} RefinesMap(s: State, ops: seq<Op>, slot: int)
    requires Selected(s) && slot >= SHARED
    ensures var s' := ApplyAll(s, ops);
      Selected(s') && s'.stackable == s.stackable && Logical(s', slot) == LastEdit(s, ops, slot)
    decreases |ops|
  {
    if ops != [] {
      var init, op := ops[..|ops| - 1], ops[|ops| - 1];
      RefinesMap(s, init, slot);
      var before := ApplyAll(s, init);
      OpKeeps(before, op, slot);
      StackableStays(before, op);
      LastEditStep(s, init, op, slot);
      assert ops == init + [op];
    }
  }

  lemma LastEditStep(s: State, init: seq<Op>, op: Op, slot: int)
    ensures var before := ApplyAll(s, init);
      && ApplyAll(s, init + [op]) == Apply(before, op)
      && LastEdit(s, init + [op], slot) ==
         if op.Edits? && before.bank.Some? && slot == Slot(before.bankIndex) then Some(Normalized(s.stackable, op.bank))
         else LastEdit(s, init, slot)
  {
    assert (init + [op])[..|init|] == init;
  }

  /** Without edits nothing changes at all. */
  lemma {:induction false} NoEditNoChange(s: State, ops: seq<Op>, slot: int)
    requires Selected(s) && slot >= SHARED && forall op | op in ops :: !op.Edits?
    ensures Selected(ApplyAll(s, ops)) && Logical(ApplyAll(s, ops), slot) == Logical(s, slot)
    decreases |ops|
  {
    if ops != [] {
      NoEditNoChange(s, ops[..|ops| - 1], slot);
      OpKeeps(ApplyAll(s, ops[..|ops| - 1]), ops[|ops| - 1], slot);
    }
  }

  // ---- the class ----

  class Client {
    const stackable: Stackable
    var bankFiles: map<int, Bank>
    var characterFiles: map<int, Character>
    var systemLoaded: bool
    var overlay: bool
    var character: Option<Character>
    var bank: Option<Bank>
    var characterIndex: int
    var bankIndex: int
    var shouldUpdatePlayTime: bool
    var lastPlayTimeUpdate: u64

    function View(): State
      reads this
    {
      State(stackable, bankFiles, characterFiles, systemLoaded, overlay, character, bank, characterIndex, bankIndex,
            shouldUpdatePlayTime, lastPlayTimeUpdate)
    }

    constructor (s: State)
      ensures View() == s
    {
      stackable, bankFiles, characterFiles := s.stackable, s.bankFiles, s.characterFiles;
      systemLoaded, overlay, character, bank := s.systemLoaded, s.overlay, s.character, s.bank;
      characterIndex, bankIndex := s.characterIndex, s.bankIndex;
      shouldUpdatePlayTime, lastPlayTimeUpdate := s.shouldUpdatePlayTime, s.lastPlayTimeUpdate;
    }

    /** The loop over a freshly loaded bank. */
    method UpdateBankAfterLoad(b: Bank) returns (r: Bank)
      ensures r == Normalized(stackable, b)
    {
      var items := b.items;
      for z := 0 to |items|
        invariant |items| == |b.items|
        invariant forall i | 0 <= i < z :: items[i] == NormalizedItem(stackable, b.items[i])
        invariant forall i | z <= i < |items| :: items[i] == b.items[i]
      {
        var item := items[z];
        if stackable(item.data) {
          if item.count != item.amount {
            items := items[z := item.(count := item.amount % 256)];
          }
        } else if item.amount != 1 {
          items := items[z := item.(amount := 1)];
        }
      }
      r := b.(items := items);
    }

    /** load_all_files, as far as banks are concerned. */
    method LoadAllFiles(now: u64)
      modifies this
      ensures View() == LoadCharacter(old(View()), now)
    {
      systemLoaded := true;
      if characterIndex in characterFiles {
        character, lastPlayTimeUpdate := Some(characterFiles[characterIndex]), now;
      }
    }

    method BankFile(now: u64) returns (r: Result<Bank, Failure>)
      modifies this
      ensures View() == Apply(old(View()), Loads(now))
      ensures match LoadBank(old(View()), now)
        case Ok(s) => s.bank.Some? && r == Ok(s.bank.value)
        case Err(e) => r == Err(e)
    {
      if overlay {
        return Err(Inaccessible);
      }
      if bank.None? {
        var raw: Bank;
        if Slot(bankIndex) in bankFiles {
          raw := bankFiles[Slot(bankIndex)];
        } else if bankIndex == characterIndex {
          if character.None? {
            if characterIndex < 0 {
              return Err(NoIndex);
            }
            LoadAllFiles(now);
            if character.None? {
              return Err(NoCharacterFile);
            }
          }
          raw := character.value.bank;
        } else if bankIndex >= 0 {
          if bankIndex !in characterFiles {
            return Err(NoCharacterFile);
          }
          raw := characterFiles[bankIndex].bank;
        } else {
          raw := Bank(0, []);
        }
        var loaded := UpdateBankAfterLoad(raw);
        bank := Some(loaded);
      }
      return Ok(bank.value);
    }

    method SaveBankFile() returns (r: Result<(), Failure>)
      modifies this
      ensures View() == Apply(old(View()), SavesBank)
      ensures r.Ok? <==> old(bank).Some?
    {
      if bank.None? {
        return Err(NoBank);
      }
      bankFiles := bankFiles[Slot(bankIndex) := bank.value];
      return Ok(());
    }

    method ChangeBankTo(index: int)
      modifies this
      ensures View() == Apply(old(View()), Changes(index))
    {
      if bank.Some? {
        var _ := SaveBankFile();
        bank := None;
      }
      bankIndex := index;
    }

    method SaveCharacterFile(now: u64) returns (r: Result<(), Failure>)
      modifies this
      ensures View() == Apply(old(View()), SavesCharacter(now))
      ensures r.Ok? <==> old(systemLoaded) && old(character).Some?
      ensures r.Err? ==> r.error == if old(!systemLoaded) then NoSystem else NoCharacter
    {
      if !systemLoaded {
        return Err(NoSystem);
      }
      if character.None? {
        return Err(NoCharacter);
      }
      if shouldUpdatePlayTime {
        character := Some(Played(character.value, now, lastPlayTimeUpdate));
        lastPlayTimeUpdate := now;
        if bank.Some? && bankIndex == characterIndex {
          character := Some(character.value.(bank := Cut(bank.value)));
        }
      }
      characterFiles := characterFiles[characterIndex := character.value];
      return Ok(());
    }

    method SaveAllFiles(now: u64) returns (r: Result<(), Failure>)
      modifies this
      ensures View() == Apply(old(View()), SavesAll(now))
    {
      if character.Some? {
        r := SaveCharacterFile(now);
        if r.Err? {
          return;
        }
      }
      if bank.Some? {
        var _ := SaveBankFile();
      }
      return Ok(());
    }

    method Unload(now: u64) returns (r: Result<(), Failure>)
      modifies this
      ensures View() == Apply(old(View()), Unloads(now))
    {
      if character.Some? {
        r := SaveCharacterFile(now);
        if r.Err? {
          return;
        }
        character := None;
        if bank.Some? {
          var _ := SaveBankFile();
          bank := None;
        }
      }
      return Ok(());
    }
  }
}
