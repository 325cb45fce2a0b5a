# Verified models of newserv's stateful cores

newserv is a server for Phantasy Star Online. This project models, in Dafny, the parts of it whose correctness depends
on long runs, interleavings or round trips, and proves what those parts promise:

- **The command channel.** `Channel.dfy` holds the framing, padding and encryption of commands for every game version
  and the receiving side as an automaton fed one byte at a time. The two sides agree on every message and keep their
  ciphers in step however the byte stream is cut. `Ciphers.dfy` is the cipher as a parameter (a keystream indexed by
  word, or an invertible eight-byte block function that may depend on the past), and `BlueBurstCiphers.dfy` shows that
  the Blue Burst ciphers are of that kind. `PeerChannel.dfy` is the in-process transport, as a class and as
  whole interleaved runs; `AsyncEvent.dfy` is the event that receivers and senders wait on; `SocketChannel.dfy` holds the
  socket's send task as a machine over executor turns (no byte lost, no wakeup lost, flush before close), and the two
  layers put together.
- **Accounts.** `AccountIndex.dfy`, `AccountLogin.dfy` and `AccountObjects.dfy` show that the index agrees with the
  licenses inside the accounts over every run of operations, that the search for an id ends at the first free one, and
  that racing logins create an account at most once. `AccountJson.dfy` is saving, loading and migrating accounts.
- **Buffered reads and WebSocket frames.** `SocketReader.dfy` refines reads from one unsplit stream; `WebSocket.dfy`
  puts the frame codec of RFC 6455 on top of it.
- **The compressor's log.** `IndexedLog.dfy`: a ring of bytes and 256 deques of positions that always agree.
- **The bank of a Blue Burst client.** `BankCache.dfy`: a lazily loaded, switchable, written-back cache behaves like a
  map from slots to banks.
- **Smaller cores.** `FindMatch.dfy` (translating addresses between executables), `DiffImages.dfy` (differences of
  executables as patches), `AfsArchive.dfy` (archives written and read back), `UrlDecode.dfy` (decoding in place) and
  `FlagRanges.dfy` (flags as text).

`dafny verify dfyconfig.toml` checks everything.

## How the model is laid out

Each state is given twice where the source updates objects: a datatype with functions on it, about which whole runs are
proved, and a class with the source's fields, whose methods are proved to do what the functions say. A loop in the
source is a loop in a method. Bytes are integers from 0 to 255; 16-, 32- and 64-bit wrap-around and truncation are
written out where the source has them. What the code takes from outside is a parameter: the clock and hashes
(`AccountLogins.Env`), the chunks a socket delivers, the ciphers, the order in which unordered containers are listed,
item stackability, the files on disk (maps).

## Where the code does not do what it says

The model follows the code. These points are stated as theorems wherever the difference can be observed.

- An unencrypted Blue Burst command whose payload is not a multiple of 4 announces bytes that are never sent
  (`UnencryptedBB` gives the exact condition).
- `src/Channel.hh:82` says that `recv` throws when no message is available; the code waits instead.
- `src/AsyncUtils.hh:179` documents a line length limit of 0 as "no limit"; the read buffer is cut to the limit, and the
  loop asks the socket for some bytes exactly if the limit is not 0 (`RequestUsable`). With a limit of 0 a line is
  returned if it is already pending; otherwise the pending data are lost and the call does not come back, which
  `ReadLine` has as an outcome of its own.
- `src/AsyncHTTPServer.cc:350-374` is written to reassemble fragmented WebSocket messages, but the flag that a fragment
  is pending is never set; a continuation frame closes the connection (`FragmentsClose`). A close frame is answered
  with a text frame, not a close frame.
- `find_match` never tries a window that ends exactly at the end of a section, so even an unchanged section is not
  matched there (`SelfMatch` gives the exact condition, `SectionEndMissed` an input).
- `url_decode_inplace` looks for '+' at the writing offset, so it decodes as intended exactly when no '+' follows an
  escape (`DecodesAsIntended`; `PlusKept` is a concrete input). For the text "%" it looks at characters behind the end,
  an outcome of its own in `DecodeInPlace`.
- The AFS table is right exactly when it fits into the fixed header and no file starts beyond 4 GB (`TableIsRight`;
  `TableTooLong` is a concrete input).
- The diff functions count addresses in 32 bits; the loop never ends if the first address at or above the bound does not
  fit (`NeverEnds`), and otherwise ends (`Compare`).
- An account in the old format whose licenses do not pass the checks of the new format cannot be loaded after it has
  been saved (`LegacyMigration`; `LegacyZeroSerial` is the family with serial number 0, `LegacyExample` one document).
- Adding an account object that is already registered is refused, and leaves the index valid, exactly if the account has a
  license; without one it is filed under a second id, and the index is no longer valid (`ReaddExact`, `AddLocked`;
  `BlankAddedTwice` and `AddBlankTwice` are the concrete input).
- Adding a license to an account object that is not registered, or removing one from it, makes the index invalid exactly if
  the call succeeds (`AddLicenseToUnregistered`, `RemoveLicenseFromUnregistered`).
- `save_character_file` commits the bank to the character only when play time is being counted
  (`src/Client.cc:598-610`); the bank seen in each slot is unaffected (`SaveCharacterKeeps`).

## Model

| member | source | states |
|---|---|---|
| Ciphers.EncryptSplit | src/PSOEncryption.hh:87-100 | encrypting in two calls, the first on whole words, is encrypting once; the state after is the same |
| Ciphers.DecryptEncrypt | src/PSOEncryption.cc:29-31 | decrypting from the sender's state gives the plaintext back, for a keystream and for blocks that may depend on the past |
| Ciphers.PaddedDecrypt | src/Channel.cc:193-201 | decrypting a text rounded up to whole words and cutting back equals decrypting it as it is, and leaves the keystream at the same word |
| BlueBurstCiphers.TFS1Inverse | src/PSOEncryption.cc:191-300 | decryption inverts encryption for the TFS1 subtype, whatever function mixes the table entries |
| BlueBurstCiphers.StandardInverse | src/PSOEncryption.cc:236-358 | the standard subtype is undone by itself with the initial keys reversed |
| BlueBurstCiphers.CiphersAreLawful | src/PSOEncryption.cc:185-360 | with any keys, the standard and TFS1 subtypes on blocks of bytes meet the law that the channel relies on |
| BlueBurstCiphers.JSD1IsLawful | src/PSOEncryption.cc:213-317 | so does JSD1, whose table changes with every plaintext byte |
| BlueBurstCiphers.JSD1Whole | src/PSOEncryption.cc:213-229 | encrypting JSD1 block by block is the source's two passes over all bytes of a call |
| BlueBurstCiphers.JSD1WholeBack | src/PSOEncryption.cc:302-317 | the same for decryption |
| Channel.HeaderRoundTrip | src/PSOProtocol.hh:11-27 | size, command and flag are read back from every header layout, narrowed to the field widths of the version |
| Channel.SizesAgree | src/Channel.cc:184-188 | the receiver recomputes the sender's physical size from the size field |
| Channel.Rounding | src/Channel.cc:97-103 | rounding to 8 forgets an earlier rounding to 4, for every length |
| Channel.RunAppend | src/Channel.cc:171-202 | the receiving state depends on the bytes and not on where the stream was cut |
| Channel.RunShort | src/Channel.cc:368-390 | a raw read that is still short is buffered and nothing else changes |
| Channel.RunComplete | src/Channel.cc:171-202 | a raw read that brings exactly what was needed completes the header or the body |
| Channel.DeliveredGrows | src/Channel.cc:234-238 | messages already delivered are never changed by what is received later |
| Channel.HeaderReceived | src/Channel.cc:171-191 | the encrypted header comes out, and the receiver then waits for exactly the rest of the frame |
| Channel.BodyReceived | src/Channel.cc:190-202 | the rest of the frame comes out as the message, and the ciphers are in step again |
| Channel.OneMessage | src/Channel.cc:35-146 | every command that fits is received as exactly one message with its command, flag and payload, zero-padded to the size field, and both ciphers end in the same state |
| Channel.UnencryptedBB | src/Channel.cc:96-103 | an unencrypted BB command is received if and only if its payload is a multiple of 4; otherwise the receiver is left waiting for 1 to 3 bytes |
| Channel.AllMessages | src/Channel.cc:35-239 | any run of sends, including ones that throw, is received as the same messages in order, ciphers in step at the end |
| PeerChannels.LinkInvariant | src/Channel.cc:360-391 | over every interleaving of sends and reads, what is in the deque will bring the receiver to where the sends put it |
| PeerChannels.ReadKeepsFuture | src/Channel.cc:375-386 | copying any number of bytes out of the front block does not change what the stream means |
| PeerChannels.EndToEnd | src/Channel.cc:35-391 | received messages are always a prefix of the sent ones; with an empty deque they are all of them and the ciphers agree |
| PeerChannels.PeerChannel.LinkPeers | src/Channel.cc:334-340 | links two channels both ways, or refuses and changes nothing if either is connected; loses no wakeup |
| PeerChannels.PeerChannel.Disconnect | src/Channel.cc:350-358 | unlinks both sides and resumes whatever waits on either, leaving unread blocks in place |
| PeerChannels.PeerChannel.SendRaw | src/Channel.cc:360-366 | appends one block to the deque of the peer and resumes its receiver if it waits, so that no wakeup is lost |
| PeerChannels.PeerChannel.SendCommand | src/Channel.cc:35-146 | sends a whole frame and advances the cipher, or fails and changes nothing |
| PeerChannels.PeerChannel.RecvRaw | src/Channel.cc:368-391 | takes exactly the next bytes of the flattened deque; suspends only if it is empty and the peer is there, and then waits on a cleared event; throws only if it is empty and the peer is gone; loses no wakeup |
| PeerChannels.PeerChannel.Recv | src/Channel.cc:171-239 | consumes a prefix of the inbound stream, is then where the byte-fed automaton is, and returns the one message delivered |
| PeerChannels.SendStep | src/Channel.cc:35-146 | a send keeps the receiving object on course and resumes its receiver |
| PeerChannels.ReceiveStep | src/Channel.cc:171-239 | a receive keeps the receiving object on course |
| PeerChannels.SendOrReceive | src/Channel.cc:35-391 | any send or receive on linked objects keeps them on course, so that EndToEnd holds of the objects |
| AsyncEvents.EventInvariant | src/AsyncUtils.cc:15-47 | over every run a set event has no waiters, and every wait is exactly once waiting, posted or resumed |
| AsyncEvents.AsyncEvent.SetEvent | src/AsyncUtils.cc:15-28 | sets the flag and moves all waiters, in order, to the executor |
| AsyncEvents.AsyncEvent.ClearEvent | src/AsyncUtils.cc:30-33 | clears the flag and wakes nobody |
| AsyncEvents.AsyncEvent.WaitOn | src/AsyncUtils.cc:35-47 | goes on at once if the event is set and is queued otherwise |
| SocketChannels.StepInv | src/Channel.cc:277-322 | every send, disconnect, executor turn and failing write keeps the invariant |
| SocketChannels.Reachable | src/Channel.cc:277-322 | in every reachable state accepted bytes are written, in flight or queued, in order; a parked task with work or a disconnect pending has its resume posted; a closed socket has been given everything |
| SocketChannels.TurnsGetCloser | src/Channel.cc:300-321 | after a disconnect each executor turn lowers the distance to the close, and nothing raises it |
| SocketChannels.DisconnectFlushes | src/Channel.cc:277-322 | after a disconnect, if writes succeed, the socket is closed with exactly the bytes accepted before it |
| SocketChannels.SocketChannel.QueueRaw | src/Channel.cc:282-287 | queues the bytes and sets the event, unless a disconnect has been asked for |
| SocketChannels.SocketChannel.RequestDisconnect | src/Channel.cc:277-280 | records the request, wakes send_task, and reports not connected from then on |
| SocketChannels.SocketChannel.RunTask | src/Channel.cc:300-321 | the loop of the send task runs to the machine's next suspension point |
| SocketChannels.SocketChannel.ExecutorTurn | src/Channel.cc:296-322 | one turn of the executor is one step of the machine and keeps the invariant |
| SocketChannels.SocketChannel.Drain | src/Channel.cc:296-322 | letting the executor run after a disconnect ends with the socket closed and everything written |
| SocketDelivery.CommandsArrive | src/Channel.cc:141-145 | over a socket, a reader of any part of the written stream has received a prefix of the commands, and all of them once the socket is closed and read to its end |
| AccountIndexes.Probe | src/Account.cc:831-833 | the search ends at an unused id other than 0 and 0xFFFFFFFF, and keeps a usable one |
| AccountIndexes.ProbeFindsFirst | src/Account.cc:831-833 | the id found is the first usable one in cyclic order behind the one asked for |
| AccountIndexes.FreeIdExists | src/Account.cc:831-833 | with fewer than 0x7FFFFFFF accounts some id is free, so that the search ends |
| AccountIndexes.CollisionMeans | src/Account.cc:800-829 | the six checks find something if and only if some license is registered already |
| AccountIndexes.AddKeeps | src/Account.cc:795-854 | adding keeps the index consistent and files the account under an id that was free, or names the kind of a license that collides |
| AccountIndexes.RemoveKeeps | src/Account.cc:856-883 | removing keeps the index consistent, or fails exactly because the account is not there |
| AccountIndexes.AddLicenseKeeps | src/Account.cc:885-943 | adding a license keeps the index consistent; it fails only if the license is registered, never because the two sides disagree |
| AccountIndexes.RemoveLicenseKeeps | src/Account.cc:945-1009 | the same for removing a license, which fails only if the account does not have it |
| AccountIndexes.ReaddExact | src/Account.cc:795-854 | adding a registered account again is refused, and leaves the index consistent, if and only if the account has a license |
| AccountIndexes.BlankAddedTwice | src/Account.cc:831-835 | the input on which it fails: a blank account is afterwards found under two ids |
| AccountIndexes.RemoveUndoesAdd | src/Account.cc:795-883 | removing an account just added gives back the index as it was |
| AccountIndexes.RemoveUndoesAddLicense | src/Account.cc:885-1009 | removing a license just added gives back the index as it was |
| AccountLogins.LookUpMeans | src/Account.cc:451-462 | in a consistent index out_of_range means exactly that nobody has the license, and a login found names its owner |
| AccountLogins.CreateSucceeds | src/Account.cc:482-493 | the account made for an unregistered license can always be added |
| AccountLogins.UniqueLockKeeps | src/Account.cc:476-496 | the section under the unique lock keeps the index consistent and every owner, returns the owner, and creates exactly if there was none |
| AccountLogins.LogInTwice | src/Account.cc:464-497 | logging in again with the same credentials finds the account that the first login created |
| AccountLogins.OperateExact | src/Account.cc:795-1009 | each operation keeps a consistent index consistent, if and only if it is not the adding of a registered account without licenses |
| AccountLogins.RunsKeepConsistent | src/Account.cc:795-1009 | the index agrees with its accounts after every run of adding new or registered accounts, removing, adding and removing licenses, and logging in, in which no registered account without licenses is added |
| AccountLogins.ProgressKeepsAgreed | src/Account.cc:464-497 | each critical section of each of many logins keeps all finished logins right |
| AccountLogins.RacingLogins | src/Account.cc:464-778 | for every interleaving of logins without removals, logins with one license that succeed all return its owner and at most one created it |
| AccountObjects.AccountIndex.ChooseId | src/Account.cc:831-833 | the loop over ids, by cyclic distance to a free one, ends at Probe's id |
| AccountObjects.AccountIndex.Insert | src/Account.cc:831-853 | what is done once no license collides, on the maps of shared objects, for new and for registered objects |
| AccountObjects.AccountIndex.AddLocked | src/Account.cc:795-854 | adding to the real maps is Add for a new object and Readd for a registered one; a refusal leaves every map and the id alone; the index is valid afterwards if and only if the object was new or has a license |
| AccountObjects.AccountIndex.AddBlankTwice | src/Account.cc:831-835 | one object added twice is under two ids of the real map, and the index is not valid |
| AccountObjects.AccountIndex.RemoveAccount | src/Account.cc:856-883 | removing from the real maps is Remove |
| AccountObjects.AccountIndex.AddLicenseTo | src/Account.cc:885-943 | for a registered account the maps and the shared object change together as AddLicense says, or not at all |
| AccountObjects.AccountIndex.AddLicenseToUnregistered | src/Account.cc:885-943 | for an account that is not registered: both errors, the change made, and that the index stays valid if and only if the call is refused |
| AccountObjects.AccountIndex.RemoveLicenseFrom | src/Account.cc:945-1009 | for a registered account the maps and the shared object change together as RemoveLicense says, or not at all |
| AccountObjects.AccountIndex.RemoveLicenseFromUnregistered | src/Account.cc:945-1009 | for an account that is not registered: both errors, the change made, and that the index stays valid if and only if the call is refused |
| AccountObjects.AccountIndex.FindLogin | src/Account.cc:499-515 | the lookup through the maps of objects is LookUp, for all kinds of credentials |
| AccountObjects.AccountIndex.CreateLogin | src/Account.cc:535-546 | the account created on the objects is the one that Add files |
| AccountObjects.AccountIndex.FromCredentials | src/Account.cc:517-550 | a login on the objects is LogIn |
| AccountJson.LicenseRoundTrip | src/Account.cc:15-122 | a license written and read back is itself if it passes the reader's checks, and an error otherwise |
| AccountJson.ListRoundTrip | src/Account.cc:187-210 | a list of licenses in any order and with repetitions reads back to the licenses listed |
| AccountJson.KindsRoundTrip | src/Account.cc:186-210 | reading some of the six lists gives back the licenses of those kinds |
| AccountJson.AccountRoundTrip | src/Account.cc:124-280 | loading a saved account gives it back, except is_temporary, if and only if all licenses pass, whatever order its maps were listed in |
| AccountJson.LegacyMigration | src/Account.cc:138-183 | an account in the original format survives a save and reload if and only if its licenses pass the new checks |
| AccountJson.LegacyZeroSerial | src/Account.cc:138-164 | a family that does not: serial number 0 with a DC or PC access key |
| AccountJson.LegacyExample | src/Account.cc:138-164 | one document of that family, loaded, saved and failing to load |
| SocketReaders.Find | src/AsyncUtils.cc:59 | the first occurrence from a position, or none |
| SocketReaders.BackedUpSearch | src/AsyncUtils.cc:67-69 | searching from delimiter_size-1 bytes before the new data finds the same first occurrence as a full search |
| SocketReaders.FoundInPrefix | src/AsyncUtils.cc:60 | a delimiter found early is the first one of the whole stream |
| SocketReaders.LineExact | src/AsyncUtils.cc:77-79 | a line returned is followed by the delimiter in the stream and holds no earlier one |
| SocketReaders.ReadsConserve | src/AsyncUtils.cc:52-112 | on the stream alone: reads whose outcome it fixes return, with the delimiters and the rest, all of it |
| SocketReaders.RunConserves | src/AsyncUtils.cc:52-112 | over any run of the three calls with any outcomes they may have, refusals and overlong lines included, what was returned, the delimiters and the rest make up the stream |
| SocketReaders.ServedAsExpected | src/AsyncUtils.cc:59-74 | a line whose first delimiter ends within the limit, and data that are there, are returned exactly, whatever is pending |
| SocketReaders.RequestUsable | src/AsyncUtils.cc:60-65 | the loop asks for some bytes if and only if the limit is not 0 |
| SocketReaders.Serve | src/AsyncUtils.cc:52-112 | each of the three calls has an outcome allowed on the unsplit stream and leaves the rest of it, or fails for good for the reason stated |
| SocketReaders.ServeAll | src/AsyncUtils.cc:52-112 | any run of the three calls on a reader, up to the first that fails for good: the stream is what was returned, the delimiters and what the reader still has, for every chunking |
| SocketReaders.ServedAllAsExpected | src/AsyncUtils.cc:52-112 | calls whose outcome the stream fixes have that outcome |
| SocketReaders.PerformAll | src/AsyncUtils.cc:52-112 | any mix of such calls on a reader returns what the unsplit stream says, for every chunking |
| SocketReaders.AsyncSocketReader.ReadLine | src/AsyncUtils.cc:52-80 | exactly when a line is returned, when it is too long with nothing lost, when the stream ends, and when a limit of 0 leaves the call without room; and what is pending afterwards |
| SocketReaders.AsyncSocketReader.SearchLine | src/AsyncUtils.cc:59-70 | the loop finds the first delimiter within the limit of the unsplit stream or establishes that there is none, and gets stuck if and only if the limit is 0 and no line is pending |
| SocketReaders.AsyncSocketReader.ReadData | src/AsyncUtils.cc:82-96 | returns the next bytes of the unsplit stream, or fails if it is too short |
| SocketReaders.AsyncSocketReader.ReadDataInto | src/AsyncUtils.cc:98-112 | the same into a buffer, of which nothing else changes |
| WebSockets.MaskTwice | src/AsyncHTTPServer.cc:319-323 | unmasking undoes masking |
| WebSockets.LengthRoundTrip | src/AsyncHTTPServer.cc:295-306 | each of the three length forms is read back, with the mask bit and what follows |
| WebSockets.FrameRoundTrip | src/AsyncHTTPServer.cc:285-323 | every frame is read back with its first byte and payload, whatever its mask, if and only if the payload is within the limit |
| WebSockets.ControlsAreTransparent | src/AsyncHTTPServer.cc:327-348 | any run of pings and pongs changes nothing but the replies: one pong per ping, in order, with its payload |
| WebSockets.DataFrame | src/AsyncHTTPServer.cc:350-380 | a data frame behind such a run is delivered if and only if it is final; otherwise it vanishes |
| WebSockets.SentIsReceived | src/AsyncHTTPServer.cc:285-401 | what this server sends it can receive, with the same bytes and opcode |
| WebSockets.Continuation | src/AsyncHTTPServer.cc:350-355 | a continuation frame always closes the connection |
| WebSockets.FragmentsClose | src/AsyncHTTPServer.cc:287-373 | a message sent in fragments closes the connection at its second fragment, pings between them notwithstanding |
| WebSockets.HTTPClient.SendWebSocketMessage | src/AsyncHTTPServer.cc:386-401 | writes the frame that FrameRoundTrip reads back |
| WebSockets.HTTPClient.Unmask | src/AsyncHTTPServer.cc:319-323 | the loop over the payload applies the key cyclically |
| WebSockets.HTTPClient.RecvFrame | src/AsyncHTTPServer.cc:292-323 | the reads of one frame take it off the unsplit stream |
| WebSockets.HTTPClient.RecvStep | src/AsyncHTTPServer.cc:289-381 | one pass of the loop reads one frame and has that frame's effect on the connection and the replies |
| WebSockets.HTTPClient.RecvWebSocketMessage | src/AsyncHTTPServer.cc:285-384 | the loop returns the message, closes or fails as the specification on the unsplit stream says, with exactly its replies |
| IndexedLogs.PositionsExact | src/Compression.hh:117-119 | the positions of a byte are exactly the offsets holding it, each once, in increasing order |
| IndexedLogs.PositionsOfTail | src/Compression.hh:110-116 | the oldest byte's offset is at the front of its deque and of no other |
| IndexedLogs.HoldsMostRecent | src/Compression.hh:90-98 | after any number of pushes the window is the most recent bytes, as many as fit |
| IndexedLogs.WindowOfHistory | src/Compression.hh:90-116 | after any run of pushes and pops at either end the window is a suffix of the history and fits |
| IndexedLogs.FindAfterRun | src/Compression.hh:117-119 | after any run find gives exactly the live places in the history that hold the byte |
| IndexedLogs.Distinct | src/Compression.hh:62-69 | offsets less than the size apart never share a slot, so that wraparound is harmless |
| IndexedLogs.IndexedLog.PushBack | src/Compression.hh:90-98 | the ring and its deques become those of the pushed window, dropping the oldest byte of a full one |
| IndexedLogs.IndexedLog.PopBack | src/Compression.hh:99-109 | the newest byte goes and its own offset is what leaves its deque; an empty log throws |
| IndexedLogs.IndexedLog.PopFront | src/Compression.hh:110-116 | the oldest byte goes and its own offset is what leaves its deque |
| IndexedLogs.IndexedLog.Find | src/Compression.hh:117-119 | the deque of a byte is its positions in the window |
| IndexedLogs.OperateAll | src/Compression.hh:75-119 | a run on the real ring ends with the window and the end offset of the run's history |
| BankCache.NormalizedTwice | src/Client.cc:1041-1056 | normalising counts twice is normalising once |
| BankCache.PreparedKeeps | src/Client.cc:866-900 | loading the character for its bank changes no slot |
| BankCache.LoadGivesLogical | src/Client.cc:750-793 | loading gives the bank that is logically in the current slot, and fails only if there is none or under an overlay |
| BankCache.OpKeeps | src/Client.cc:750-827 | no operation but an edit changes the bank in any slot, and an edit changes only the loaded slot |
| BankCache.SaveCharacterKeeps | src/Client.cc:591-615 | saving the character, with or without committing the bank, changes no slot |
| BankCache.UnloadKeeps | src/Client.cc:1090-1105 | unloading with saving changes no slot |
| BankCache.RefinesMap | src/Client.cc:750-827 | after any run every slot holds its last edit, as in a plain map |
| BankCache.NoEditNoChange | src/Client.cc:1041-1105 | a run without edits changes no slot |
| BankCache.Client.UpdateBankAfterLoad | src/Client.cc:1041-1056 | the loop normalises every item |
| BankCache.Client.BankFile | src/Client.cc:750-793 | loading on the fields is LoadBank, with its errors, including the loading of the character |
| BankCache.Client.SaveBankFile | src/Client.cc:807-814 | saving writes the loaded bank to its slot's file, or fails without one |
| BankCache.Client.ChangeBankTo | src/Client.cc:816-827 | switching saves a loaded bank first |
| BankCache.Client.SaveCharacterFile | src/Client.cc:591-615 | saving the character on the fields is SaveCharacter, with its errors |
| BankCache.Client.SaveAllFiles | src/Client.cc:1058-1071 | saving everything is SaveAll |
| BankCache.Client.Unload | src/Client.cc:1090-1105 | unloading is UnloadCharacter |
| FindMatch.TextIsCanonical | src/AddressTranslator.cc:522-541 | comparing text words by the source word's class is equality of canonical forms |
| FindMatch.TextIsEquivalence | src/AddressTranslator.cc:522-541 | the comparison is reflexive, symmetric and transitive |
| FindMatch.MatchesShrink | src/AddressTranslator.cc:504-565 | a wider window matches in no more places than a narrower one |
| FindMatch.SelfMatch | src/AddressTranslator.cc:510-513 | in an unchanged section the window is found at its own offset if and only if it does not end at the section's end and the offset is one the scan visits |
| FindMatch.Grow | src/AddressTranslator.cc:574-626 | growing keeps the window inside the source and aligned, and makes it strictly larger |
| FindMatch.SearchSound | src/AddressTranslator.cc:504-629 | an address returned is that of the only scanned place where the final window matches; no match means that it matches nowhere |
| FindMatch.SectionEndMissed | src/AddressTranslator.cc:510-513 | an input on which it is not found: a section of four bytes in itself |
| FindMatch.CounterpartFound | src/AddressTranslator.cc:504-629 | if a place matches in every window that the search goes through, the search returns that place or cannot tell it from others; never another address and never no match |
| FindMatch.Compare | src/AddressTranslator.cc:514-560 | the comparison loop decides agreement of all units |
| FindMatch.Scan | src/AddressTranslator.cc:509-565 | the count is 0 exactly if no place matches and 1 exactly if one place does, whose address is then returned |
| FindMatch.Find | src/AddressTranslator.cc:468-629 | takes the first section holding the address and returns what the search specifies, within the bound of 0x100 bytes |
| DiffImages.PatchReachesB | src/AddressTranslator.cc:958-975 | overwriting A with the b data makes every scanned word that both images hold equal to B's, and changes nothing else |
| DiffImages.PatchRestoresA | src/AddressTranslator.cc:958-975 | writing the a data back restores A |
| DiffImages.BytewiseIsComplete | src/AddressTranslator.cc:986-1018 | byte by byte every address of both images is scanned, so that the patched A agrees with B wherever both hold anything |
| DiffImages.Visit | src/AddressTranslator.cc:959-973 | one address extends the differences found so far by one word, merged with the last entry exactly if it continues it |
| DiffImages.NeverEnds | src/AddressTranslator.cc:959 | if the first address at or above the bound does not fit into 32 bits, the address stays below the bound for ever |
| DiffImages.Compare | src/AddressTranslator.cc:958-975 | otherwise the loop ends, and the entries are the differing words of the range and nothing else, ascending, disjoint and with gaps between them |
| DiffImages.Range | src/AddressTranslator.cc:947-956 | the least address and greatest end over the sections |
| DiffImages.Diff | src/AddressTranslator.cc:939-1019 | the whole function from loaded images on, for ranges on which its loop ends |
| AfsArchives.TableIsRight | src/AFSArchive.cc:71-84 | the offsets predicted in the first loop are the positions written in the second if and only if there are at most 65535 files and none starts beyond 4 GB |
| AfsArchives.TableTooLong | src/AFSArchive.cc:71-84 | an input on which they are not: 65536 empty files |
| AfsArchives.ImageParses | src/AFSArchive.cc:26-35 | every archive written parses, with one entry per file |
| AfsArchives.RoundTrip | src/AFSArchive.cc:38-53 | get_copy of each entry of a written archive is the file, and its extent is where the file was written |
| AfsArchives.Extents | src/AFSArchive.cc:71-84 | every extent starts on a multiple of 0x800 behind the header and ends before any later one starts |
| AfsArchives.Generate | src/AFSArchive.cc:64-86 | the two loops produce the specified image |
| AfsArchives.Parse | src/AFSArchive.cc:14-36 | the reader accepts exactly archives with the magic number and a whole table, and reports the two errors |
| UrlDecoding.SameErrors | src/AsyncHTTPServer.cc:119-122 | the code fails exactly where the intended decoding fails |
| UrlDecoding.DecodesAsIntended | src/AsyncHTTPServer.cc:116-133 | the code decodes as intended if and only if no '+' follows an escape |
| UrlDecoding.PlusKept | src/AsyncHTTPServer.cc:124-126 | a concrete input on which it does not |
| UrlDecoding.RoundTrip | src/AsyncHTTPServer.cc:116-133 | decoding any percent-encoding of any byte string gives the byte string |
| UrlDecoding.DecodeOne | src/AsyncHTTPServer.cc:119-130 | one round of the loop decodes one byte as specified on the original text, although the text is being overwritten |
| UrlDecoding.DecodeInPlace | src/AsyncHTTPServer.cc:116-133 | the loop with two offsets leaves that result in the text it reads from; the text "%" alone makes it look behind the end |
| FlagRanges.TextExpands | src/ChatCommands.cc:33-45 | reading the text of any groups gives their members |
| FlagRanges.SetFlagsExact | src/ChatCommands.cc:49-60 | the list of set flags holds exactly the set ones, each once, in increasing order |
| FlagRanges.RunsAppear | src/ChatCommands.cc:49-59 | every maximal run of set flags is one of the groups |
| FlagRanges.StrForFlagRanges | src/ChatCommands.cc:31-61 | the text parses back to exactly the set flags and is that of maximal runs |

## Left out

- Ciphers: the key schedules and the detector and multi-key wrappers of `src/PSOEncryption.cc`; the PC, DC and GC ciphers are any keystream of words. Block ciphers take multiples of 8 bytes, which is what the channel gives them, though JSD1 would take any even number.
- SocketChannels.SocketChannel: does not model `recv_raw`, because it only hands the socket's stream on; `CommandsArrive` speaks of that stream instead.
- PeerChannels.PeerChannel.SendCommand: takes the payload as one block, because the source concatenates its list of blocks first.
- PeerChannels.PeerChannel.LinkPeers: weak references are plain ones, so a peer goes away only by `disconnect`.
- AsyncEvents: the event's mutex, because the executor is single-threaded; `AsyncPromise` and the thread pool.
- AccountIndexes.AddLicenseKeeps: calls of `add_*_license` and `remove_*_license` are one at a time, because the source takes no lock in them.
- AccountObjects.AccountIndex: the six license maps of the index and of an account are each one map keyed by license with its kind, which is the same data.
- AccountObjects.AccountIndex.AddLocked: does not model the search running forever when all ids are taken; some id must be free.
- The login path for PC NTE guests, which is `add_locked` with a random id, and loading the index from a directory.
- AccountJson: JSON text and the JSON library; numbers are its 64-bit signed integers, field names an enumeration.
- HTTP requests and responses other than WebSocket frames; the body of a chunked request is never stored by the source.
- WebSockets.HTTPClient: timestamps, and the socket's failure while a reply is written.
- IndexedLogs.IndexedLog.PopFront: has to be called on a log that is not empty, which the source leaves to its callers.
- IndexedLogs.IndexedLog: does not model overflow of 64-bit offsets. The compressors that use the log are left out.
- BankCache.Client: only for a Blue Burst client that is logged in; system and guild card files, legacy account files, the limits on items and meseta, and unloading without saving are left out.
- FindMatch.Find: logging and the numeric names of expand methods; a read outside the source section is an error, as the memory library, which is not part of this model, must make it.
- DiffImages.Compare: requires that the 32-bit address does not wrap around before it passes the bound, because the source does not come back otherwise.
- DiffImages.Diff: requires the same of the range of the sections, and starts from loaded images, because the loaders for DOL and XBE files are not part of this model.
- AfsArchives.Generate: big-endian output is left out, because the reader takes every field as little-endian.
- UrlDecoding.DecodeInPlace: what `value_for_hex_char` does with characters that are not digits is taken to be an exception, and is not part of this model.
- The other chat commands, DNS, choice search, battle parameters, item data, quests, maps, other archives and scripts.
