# Verified model of an electronic key cabinet

The firmware in `new-mykee-lite` runs a cabinet of sixteen electronic keys. It talks to a server over an encrypted
protocol, keeps users, tasks and events in a NOR flash chip, takes its own firmware upgrades over the network, and
decides who may take which key. This project models the parts of it that compute or keep state, in Dafny, and proves
what they promise.

| files | part |
|---|---|
| `AesTables`, `Gf256`, `AesBlock`, `AesKeySchedule`, `AesVectors`, `AesEngine` | AES-128 (FIPS 197): the field, the rounds and their inverses as functions, the published example, and the in-place code on the state matrix proved equal to them |
| `CbcMode`, `CbcEngine` | CBC (NIST SP 800-38A, section 6.2): the recursive definition, and the two buffer routines with their moving chaining pointer |
| `CcittTable`, `Checksum`, `Heartbeat` | the checksum, and the frames of the heartbeat connection with their receive path |
| `Calendar`, `CalendarClock` | Unix time and Gregorian dates, date order, the two day-of-week formulas, and the conversions with their 32-bit arithmetic |
| `NorFlash` | the flash chip and its driver |
| `SlotTable`, `RecordTable`, `RecordStore` | the append-only user and task tables and the map they stand for |
| `Compaction`, `CompactionLimits`, `CompactionEngine` | compaction of a table through the backup region |
| `EventRing`, `EventDelivery`, `EventReplies`, `EventHazards`, `EventProgress`, `EventReboot`, `EventLog`, `EventPacket` | the ring of logged events, stop-and-wait delivery, which replies count, the exact conditions under which delivery is orderly and under which it goes on, finding the cursors again after a restart, and the packet of an event |
| `FirmwareCrc`, `FirmwareUpload` | the firmware check value, and the upload with its commit marker |
| `Quorum` | authorisation by several users |
| `Custody`, `CustodyTruth`, `KeyCabinet` | who holds which key, what is logged about it, and whether that is so |

Code that the firmware works out step by step on buffers, records or flash is a class whose methods change the same
things in the same order; each method is proved equal to a function, and what the firmware promises is proved of that
function. `dafny verify dfyconfig.toml` checks everything.

Some of what was proved is not what the code's comments, names or neighbours suggest:

- The comment over `dow1` (new-mykee-lite/src/common_func.c:83-97) says it counts from Sunday; the code counts from
  Monday, and the lemmas follow the code.
- The head of the AES file asks for whole blocks; the code takes any length, runs over `ceil(length / 16)` blocks and
  then, for a partial last block, over one more. Encryption overwrites its input; decryption is promised for disjoint
  buffers.
- The erase helpers of the compaction step by decimal 1000 and erase only the first sector of a region, three times. The
  user table is compacted for sure only while fewer than 512 of its slots are used, and the same limit holds for the
  task table through its backup (`CompactionLimits.UsersCompactedAlways`, `CompactionLimits.TasksCompactedAlways`). The fingerprint
  variant cannot raise a flag in a record beyond the first sector (`Compaction.UsersCompactedExactly`).
- Delivery of events is orderly exactly while no record is logged into a ring that is full of waiting records and no reply
  is taken for a slot that has been erased since its packet went out (`EventHazards.ExactlyAllowed`). Nothing in the code
  prevents either, and both happen on runs from an erased log (`EventHazards.FullReached`,
  `EventHazards.FullReachedWaiting`, `EventHazards.StaleReached`). A record logged into the full ring is acknowledged
  before older ones, and, if a reply is being waited for, without ever having been sent
  (`EventHazards.OvertakenDisorders`, `EventHazards.OvertakenUnsent`); a reply for an erased slot makes a later record
  count as delivered (`EventHazards.StaleReplyLoses`).
- A ring that is full of waiting records is taken for an empty one. An idle node sends nothing from it until another
  record is logged, which then overwrites the oldest (`EventProgress.Stalled`); with room in the ring, what waits is
  delivered (`EventProgress.ProgressExactly`).
- An event packet announces 7 bytes of padding although 6 zeros stand in front of the pad count
  (new-mykee-lite/src/tcp_client_event.c:281-289); the heartbeat frames announce exactly their zeros.
- The polynomial of the firmware check value is 0xEDB88340, not the 0xEDB88320 of the usual CRC-32, so that published
  check values do not apply (`FirmwareCrc.PolynomialShows`).
- After a restart the event write cursor is lost when it is the last slot, or when it stands at the start of a sector
  after the first lap; the read cursor is lost when the first waiting record is in slot 0 or the ring is full. Otherwise
  delivery goes on (`EventReboot.WriteCursorRecovered`, `EventReboot.ReadCursorRecovered`, `EventReboot.RestartResumes`).
- An approver's id goes through a signed 16-bit variable. A login whose id is a multiple of 65536 resolves to the code 0,
  which matches an empty slot and counts as one more user (`Quorum.FreeLogin`): logins of one user who is not on the list
  give access to a task that needs any number of users, if its list has an empty slot (`Quorum.UnapprovedAccess`). Access
  stands for as many approvers as the task requires exactly when the number of such logins is a multiple of 256, and so
  whenever there are none (`Quorum.AccessMeansApproved`, `Quorum.AccessNeedsApprovers`).
- Two logins that succeed in one turn of the approval loop can step over the required count (`Quorum.StepsOver`), and then
  approvers cannot give access any more (`Quorum.NoAccessAbove`). The loop ends whatever logs in exactly when no slot of
  the list is empty or names the user who asks, and no listed code is below 32768 or at least 2^32 - 32768
  (`Quorum.ApprovalEndsExactly`). With other lists two logins of code 0 in every turn, a finger and a card, keep it going
  for ever; it ends if no turn has two such logins (`Quorum.ApprovalEnds`). The finger of such a turn is one that the
  reader reports under a multiple of 65536: the firmware cuts the number to 16 bits (new-mykee-lite/src/bio.c:1540-1553)
  and accepts a record of id 0 with its finger flag at 1, which is a deleted user's record, since a delete clears only id
  and card number.
- The record of a key keeps 16 bits of its holder's id. A user whose id is 65536 or more can take a key but can never
  return it in a session (`Custody.TakerReturns`, `Custody.TakerReturnsMarked`).
- A task that lists one approver twice can be approved twice by that one user (`Quorum.SecondLogin`).
- A firmware upload stays in the four sectors it erases exactly when 2 to 1025 blocks are announced
  (`FirmwareUpload.StaysInBoot`); the code takes any 16-bit number.

## Model

| member | source | states |
|---|---|---|
| Gf256.SBoxIsAffineOfInverse | new-mykee-lite/src/aesencriptionwipro.c:60-76 | every entry of the S-box is the affine map of the multiplicative inverse of its index (FIPS 197, section 5.1.1) |
| Gf256.RSBoxUndoesSBox | new-mykee-lite/src/aesencriptionwipro.c:79-96 | the inverse S-box undoes the S-box |
| Gf256.SBoxUndoesRSBox | new-mykee-lite/src/aesencriptionwipro.c:79-96 | the S-box undoes the inverse S-box |
| Gf256.TimesTwo | new-mykee-lite/src/aesencriptionwipro.c:259-262 | `xtime` is multiplication by x modulo the field polynomial |
| Gf256.TimesFourteen | new-mykee-lite/src/aesencriptionwipro.c:282-299 | `Multiply` by 14 is the product in the field |
| Gf256.TimesThirteen | new-mykee-lite/src/aesencriptionwipro.c:282-299 | `Multiply` by 13 is the product in the field |
| Gf256.TimesEleven | new-mykee-lite/src/aesencriptionwipro.c:282-299 | `Multiply` by 11 is the product in the field |
| Gf256.TimesNine | new-mykee-lite/src/aesencriptionwipro.c:282-299 | `Multiply` by 9 is the product in the field |
| Gf256.MixByteShortcut | new-mykee-lite/src/aesencriptionwipro.c:265-279 | one byte of the shortcut of MixColumns is the matrix product of section 5.1.3 of FIPS 197 |
| Gf256.InvMixUndoesMix | new-mykee-lite/src/aesencriptionwipro.c:303-320 | the inverse matrix undoes the matrix, for every column |
| Gf256.MixUndoesInvMix | new-mykee-lite/src/aesencriptionwipro.c:303-320 | the matrix of MixColumns undoes its inverse, for every column |
| AesBlock.MixRowShortcut | new-mykee-lite/src/aesencriptionwipro.c:265-279 | the four assignments of MixColumns, with the saved first byte, give the four rows of the matrix product |
| AesBlock.InvMixRowMultiplied | new-mykee-lite/src/aesencriptionwipro.c:303-320 | the four assignments of InvMixColumns give the rows of the inverse matrix product |
| AesBlock.MixColumnsUndone | new-mykee-lite/src/aesencriptionwipro.c:265-320 | MixColumns and InvMixColumns undo each other on every block |
| AesBlock.ShiftRowsByMoves | new-mykee-lite/src/aesencriptionwipro.c:231-256 | the moves of bytes one at a time shift the rows by 0, 1, 2 and 3 columns |
| AesBlock.InvShiftRowsByMoves | new-mykee-lite/src/aesencriptionwipro.c:336-363 | the moves of bytes one at a time shift the rows back by 0, 1, 2 and 3 columns |
| AesBlock.ShiftRowsUndone | new-mykee-lite/src/aesencriptionwipro.c:231-363 | the two row shifts undo each other |
| AesBlock.SubBytesUndone | new-mykee-lite/src/aesencriptionwipro.c:216-333 | the two substitutions undo each other |
| AesBlock.StatesMeet | new-mykee-lite/src/aesencriptionwipro.c:366-412 | deciphering passes, round by round, through the states that ciphering went through |
| AesBlock.InvCipherUndoesCipher | new-mykee-lite/src/aesencriptionwipro.c:366-412 | for every block and every 176-byte schedule, InvCipher undoes Cipher (FIPS 197, section 5.3) |
| AesBlock.CipherUndoesInvCipher | new-mykee-lite/src/aesencriptionwipro.c:366-412 | for every block and every 176-byte schedule, Cipher undoes InvCipher |
| AesBlock.KeyEnters | new-mykee-lite/src/aesencriptionwipro.c:200-212 | the sixteen schedule bytes of a round are the last thing added to its state: states under schedules that agree before them agree again once they are taken away |
| AesBlock.LastKeyEnters | new-mykee-lite/src/aesencriptionwipro.c:383-388 | the last sixteen bytes of the schedule enter after the last round |
| AesKeySchedule.RconIsPower | new-mykee-lite/src/aesencriptionwipro.c:98-120 | the round constants are the powers of x in the field |
| AesKeySchedule.ScheduleStep | new-mykee-lite/src/aesencriptionwipro.c:146-197 | the word built by rotation, substitution and round constant is the word of the key schedule |
| AesVectors.CipherOfExample | new-mykee-lite/src/aesencriptionwipro.c:366-388 | under the schedule of its key, the plaintext of appendix B of FIPS 197 becomes its ciphertext |
| AesVectors.InvCipherOfExample | new-mykee-lite/src/aesencriptionwipro.c:390-412 | and the ciphertext becomes the plaintext again |
| AesEngine.Engine.AddRoundKey | new-mykee-lite/src/aesencriptionwipro.c:202-212 | in place, the round's sixteen schedule bytes are added to the state and nothing else changes |
| AesEngine.Engine.SubBytes | new-mykee-lite/src/aesencriptionwipro.c:216-227 | in place, every byte goes through the S-box |
| AesEngine.Engine.InvSubBytes | new-mykee-lite/src/aesencriptionwipro.c:324-334 | in place, every byte goes through the inverse S-box |
| AesEngine.Engine.ShiftRows | new-mykee-lite/src/aesencriptionwipro.c:231-257 | the moves through one saved byte shift the rows |
| AesEngine.Engine.InvShiftRows | new-mykee-lite/src/aesencriptionwipro.c:336-363 | the moves through one saved byte shift the rows back |
| AesEngine.Engine.MixColumns | new-mykee-lite/src/aesencriptionwipro.c:265-279 | in place, every column is multiplied by the matrix although its first byte is overwritten before the last is computed |
| AesEngine.Engine.InvMixColumns | new-mykee-lite/src/aesencriptionwipro.c:303-320 | in place, every column is multiplied by the inverse matrix |
| AesEngine.Engine.KeyExpansion | new-mykee-lite/src/aesencriptionwipro.c:135-198 | the 44 words built in the round-key array are the key schedule of section 5.2 of FIPS 197 |
| AesEngine.Engine.Cipher | new-mykee-lite/src/aesencriptionwipro.c:366-388 | the rounds in place give the cipher of the state |
| AesEngine.Engine.InvCipher | new-mykee-lite/src/aesencriptionwipro.c:390-412 | the rounds in place give the inverse cipher of the state |
| CbcMode.DecryptUndoesEncrypt | new-mykee-lite/src/aesencriptionwipro.c:447-524 | CBC decryption of any prefix of an encryption gives that prefix of the plaintext (NIST SP 800-38A, section 6.2) |
| CbcMode.EncryptUndoesDecrypt | new-mykee-lite/src/aesencriptionwipro.c:447-524 | CBC encryption of any prefix of a decryption gives that prefix of the ciphertext |
| CbcMode.EncryptedLocal | new-mykee-lite/src/aesencriptionwipro.c:463-470 | the first n blocks of ciphertext depend on the first n blocks of plaintext alone |
| CbcMode.FirstBlock | new-mykee-lite/src/aesencriptionwipro.c:447-510 | the first block is masked with the initial block before it is ciphered, and unmasked with it after it is deciphered |
| CbcMode.EncryptedInParts | new-mykee-lite/src/aesencriptionwipro.c:463-470 | a message enciphered in two parts, the second chained to the last ciphertext block of the first, gives the ciphertext of the whole |
| CbcEngine.Cbc.XorWithIv | new-mykee-lite/src/aesencriptionwipro.c:438-445 | sixteen bytes of a buffer are masked with the block the chaining pointer stands at |
| CbcEngine.Cbc.EncryptStep | new-mykee-lite/src/aesencriptionwipro.c:463-470 | one turn masks the input in place, enciphers the copy, and leaves the pointer at the block just written |
| CbcEngine.Cbc.DecryptStep | new-mykee-lite/src/aesencriptionwipro.c:503-510 | one turn deciphers and unmasks the copy, and leaves the pointer at the block just read |
| CbcEngine.Cbc.Encrypt | new-mykee-lite/src/aesencriptionwipro.c:447-483 | the output is the recursive CBC definition despite the moving pointer, with the extra block of a partial length, and the input is left masked |
| CbcEngine.Cbc.Decrypt | new-mykee-lite/src/aesencriptionwipro.c:485-524 | with disjoint buffers the output is the recursive CBC decryption, with the extra block of a partial length |
| CbcEngine.RoundTrip | new-mykee-lite/src/aesencriptionwipro.c:447-524 | for every key schedule, initial block, length and buffer contents, decrypting an encrypted buffer restores the plaintext of all its blocks |
| CbcEngine.PartialBlock | new-mykee-lite/src/aesencriptionwipro.c:472-524 | the extra block of a partial length is made, without chaining, of as many bytes behind the last block visited as the length goes over whole blocks, with zeros after them |
| CbcEngine.Untouched | new-mykee-lite/src/aesencriptionwipro.c:447-524 | no call changes what lies beyond its blocks and the extra one, and a call with length 0 copies the first block |
| Checksum.EntryIsRemainder | new-mykee-lite/src/protocol_comm.c:25-58 | every table entry is the remainder of its index by the CCITT polynomial |
| Checksum.EntriesDistinct | new-mykee-lite/src/protocol_comm.c:25-58 | no two bytes share an entry |
| Checksum.AcceptsExactly | new-mykee-lite/src/tcp_client_hb.c:130-146 | the receiver accepts exactly the messages that end in their own checksum |
| Checksum.ChecksumIsNumber | new-mykee-lite/src/tcp_client_hb.c:95-129 | the two bytes behind a message, read as a number high byte first, are the table entry under the sum of its bytes |
| Checksum.XorAllOfSum | new-mykee-lite/src/tcp_client_hb.c:95-109 | the sum that selects the entry is the sum of the sums of any two parts of the message |
| Checksum.SingleChangeRejected | new-mykee-lite/src/tcp_client_hb.c:130-146 | changing any one byte before the checksum makes an accepted message rejected |
| Checksum.DamagedRejected | new-mykee-lite/src/tcp_client_hb.c:130-146 | changing any one byte of an accepted message, its checksum included, makes it rejected |
| Heartbeat.Link.CrcCalculationClient | new-mykee-lite/src/tcp_client_hb.c:95-129 | the send buffer holds body, checksum, padding and pad count, at most 255 bytes in all |
| Heartbeat.Link.EncryptPacket | new-mykee-lite/src/aesencriptionwipro.c:602-630 | for any count whose blocks fit the send buffer, whole blocks or not, the buffer ends with the CBC encryption of a copy of its first bytes, the extra block of a partial length, and the rest as before |
| Heartbeat.Link.Send | new-mykee-lite/src/tcp_client_hb.c:368-370 | for every body that fits, the checksum and encryption routines one after the other leave the wire frame of that body in the send buffer, and answer its length |
| Heartbeat.Link.DecryptPacket | new-mykee-lite/src/aesencriptionwipro.c:582-601 | exactly the counted bytes are replaced by their decryption, for a length that need not be whole blocks |
| Heartbeat.Link.CheckCrcServer | new-mykee-lite/src/tcp_client_hb.c:130-146 | the loop answers whether the message carries its own checksum |
| Heartbeat.Link.Receive | new-mykee-lite/src/tcp_client_hb.c:1249-1252 | the receive path strips by the pad count, decrypts and checks |
| Heartbeat.FrameRecovered | new-mykee-lite/src/tcp_client_hb.c:95-146 | for every body, the receive path recovers from the wire frame, which is what is sent, exactly the body and its checksum, and accepts |
| Heartbeat.FrameOpens | new-mykee-lite/src/tcp_client_hb.c:95-129 | the frame decrypts to body, checksum and zeros up to whole blocks, and its last byte, in the clear, is the number of those zeros |
| Calendar.CenturyFound | new-mykee-lite/src/common/date_time.c:215-220 | the century term of the conversion is the century of the shifted year |
| Calendar.DayNumberFound | new-mykee-lite/src/common/date_time.c:215-233 | counting back the days of the date found for a day number gives that number, for every day from the epoch on |
| Calendar.DayNumberCountsDays | new-mykee-lite/src/common/date_time.c:258-274 | the day number is 0 on 1 January 1970 and goes up by one with each day of the Gregorian calendar |
| Calendar.DayNumberMonotone | new-mykee-lite/src/common/date_time.c:258-274 | later valid days have larger numbers |
| Calendar.TimeSurvives | new-mykee-lite/src/common/date_time.c:188-282 | for every time from 0 on the date is valid and not before 1970, and converts back to the same time |
| Calendar.DateSurvives | new-mykee-lite/src/common/date_time.c:188-282 | every valid date from 1970 on converts to a time that gives the date back |
| Calendar.DateOrderIsTimeOrder | new-mykee-lite/src/common/date_time.c:292-330 | for valid dates the comparison is the sign of the difference of their times in milliseconds |
| Calendar.DateOrderIsTotal | new-mykee-lite/src/common/date_time.c:292-330 | the comparison is a total order on all dates and ignores only the day of the week |
| Calendar.DayOfWeekCountsDays | new-mykee-lite/src/common/date_time.c:341-364 | the congruence counts days from Thursday 1 January 1970, exactly outside January and February of the year 0, where the 16-bit year wraps |
| Calendar.WeekdayFormulasAgree | new-mykee-lite/src/common_func.c:98-117 | `dow1` is `computeDayOfWeek` less one, and the day count modulo 7, with 2000 added to years below 100 |
| CalendarClock.NothingWraps | new-mykee-lite/src/common/date_time.c:215-233 | no intermediate result of the conversion to a date wraps for any 32-bit time |
| CalendarClock.DateTime.ConvertUnixTimeToDate | new-mykee-lite/src/common/date_time.c:188-239 | all fields of the record end up as the date of the time, times below 1 as the epoch |
| CalendarClock.DateTime.ConvertDateToUnixTime | new-mykee-lite/src/common/date_time.c:248-282 | with every step taken modulo 2^32 the result is the time modulo 2^32, exactly outside January and February of the year 0, and the time itself when it fits |
| NorFlash.Flash.ReadBytes | new-mykee-lite/src/Middleware/EEPROM/EEPROM.c:74-89 | reads the bytes from an address on |
| NorFlash.Flash.WrBytes | new-mykee-lite/src/Middleware/EEPROM/EEPROM.c:91-128 | programs all bytes by clearing bits, or refuses and changes nothing when they cross a page |
| NorFlash.Flash.SectorErase | new-mykee-lite/src/Middleware/EEPROM/EEPROM.c:147-168 | erases the 64 KiB sector of an address, but address 0 only with the flag raised |
| NorFlash.WithinPageExactly | new-mykee-lite/src/Middleware/EEPROM/EEPROM.c:91-128 | the guard of a write is that its first and last byte lie in one page |
| NorFlash.ProgrammedByte | new-mykee-lite/src/Middleware/EEPROM/EEPROM.c:91-128 | programming clears bits, sets none, and changes nothing outside the range of the data |
| NorFlash.ErasedByte | new-mykee-lite/src/Middleware/EEPROM/EEPROM.c:147-168 | an erase at any address blanks exactly the bytes of its sector |
| SlotTable.LiveOnlyMeans | new-mykee-lite/src/mci_menu.c:641-654 | the live slots followed by free ones stand for the same map |
| SlotTable.DropTakesOut | new-mykee-lite/src/protocol_comm.c:222-304 | dropping an id takes out its one live slot and keeps every other |
| SlotTable.AppendPutsIn | new-mykee-lite/src/protocol_comm.c:242-288 | taking the first free slot for a new id adds it to the map |
| RecordTable.RunRefines | new-mykee-lite/src/protocol_comm.c:222-304 | over every run of stores and deletes, for all ids, the table keeps one live record for each id and nothing but erased slots after its end, and stands for the bounded map after the same run |
| RecordTable.StoreStep | new-mykee-lite/src/protocol_comm.c:242-288 | a store replaces the id's record, or loses it when no slot is free |
| RecordTable.StoreOnesStep | new-mykee-lite/src/protocol_comm.c:242-288 | a store under the all-ones id uses up every free slot and changes no record |
| RecordTable.DeleteStep | new-mykee-lite/src/protocol_comm.c:222-241 | a delete takes the id out of the map |
| RecordTable.DeleteOnesStep | new-mykee-lite/src/protocol_comm.c:222-241 | a delete of the all-ones id uses up one free slot and changes no record |
| RecordTable.EndIsUsed | new-mykee-lite/src/login_menu.c:703-717 | the first slot whose id is all ones is the end of the used slots |
| RecordTable.LookupIsMap | new-mykee-lite/src/login_menu.c:703-717 | the first match before the end of the table is the record last stored under the id, and there is none exactly if the map has none; the id zero matches tombstones only, the all-ones id nothing, and the map has neither |
| RecordTable.ErasedTable | new-mykee-lite/src/protocol_comm.c:242-288 | an erased table stands for the empty map |
| RecordTable.TombstoneClears | new-mykee-lite/src/protocol_comm.c:222-304 | a deletion clears the id of a record, and of a user record the card number behind it, and no other byte |
| RecordTable.RunKeepsCleared | new-mykee-lite/src/protocol_comm.c:222-304 | over every run of deletes and of stores of non-zero ids, no record with a zero id keeps anything in its cleared bytes |
| RecordTable.CardIsLive | new-mykee-lite/src/login_menu.c:377-401 | in such a table every used slot with a card number other than zero is the live record of its user |
| RecordStore.ProgramSlot | new-mykee-lite/src/mci_menu.c:273-277 | writing a slot never crosses a page and changes that slot alone |
| RecordStore.RecordStore.Read | new-mykee-lite/src/mci_menu.c:257-261 | loads a slot into the record in memory |
| RecordStore.RecordStore.Write | new-mykee-lite/src/mci_menu.c:273-277 | programs the record in memory over a slot |
| RecordStore.RecordStore.Place | new-mykee-lite/src/protocol_comm.c:242-288 | all records of the id before the end become tombstones; the answer is the first free slot, or -2 for users and -1 for tasks |
| RecordStore.RecordStore.Store | new-mykee-lite/src/tcp_client_hb.c:495-544 | an add or modify command turns the records of the id into tombstones and programs the first free slot, and reports whether there was one; on a well-formed table it is the store of the map |
| RecordStore.RecordStore.Delete | new-mykee-lite/src/protocol_comm.c:222-304 | a delete turns the first record of the id into a tombstone and reports whether there was one; on a well-formed table it is the delete of the map |
| RecordStore.RecordStore.Find | new-mykee-lite/src/login_menu.c:703-717 | the index of the first match not after the end of the table, or -1; in a well-formed table an id is found exactly if the map has it, with the map's record |
| RecordStore.RecordStore.ReadStatus | new-mykee-lite/src/protocol_comm.c:318-328 | the id is cut to 16 bits; the answer is the index of its first match in the whole table, or -1, which in a well-formed table is the map's record for the cut id |
| RecordStore.LowHalfIsRemainder | new-mykee-lite/src/protocol_comm.c:318-328 | the id that the lookup is given is its remainder modulo 65536 |
| RecordStore.RecordStore.FindCard | new-mykee-lite/src/login_menu.c:377-401 | the index of the first match of a card number not after the end of the table, or -1; of a number other than zero what is found is a record of the map, so that no deleted user is found by card |
| Compaction.CompactedMeans | new-mykee-lite/src/mci_menu.c:600-681 | the order-preserving filter followed by erased slots is a well-formed table with one slot for each record, and every lookup gives the same record, with its finger flag raised in the fingerprint variant |
| Compaction.CompactedTwice | new-mykee-lite/src/mci_menu.c:600-681 | the compacted table is its own compaction |
| Compaction.MarkedByte | new-mykee-lite/src/mci_menu.c:600-655 | the fingerprint variant raises a finger flag of 0 to 0xFF and changes no other byte |
| Compaction.UsersCompacted | new-mykee-lite/src/mci_menu.c:600-655 | with fewer than 512 slots used the user table is compacted, whatever the backup region held |
| Compaction.UsersAlignedTwice | new-mykee-lite/src/mci_menu.c:600-655 | with fewer than 512 slots used, running the compaction of the user table again changes nothing, whatever the backup region held either time |
| Compaction.UsersCompactedExactly | new-mykee-lite/src/mci_menu.c:600-655 | with the backup erased beyond its first sector, it is compacted if and only if at most 512 slots are used or there is nothing to do |
| CompactionLimits.UsersCompactedAlways | new-mykee-lite/src/mci_menu.c:584-655 | the user table, full or not, is compacted for every content of the backup if and only if fewer than 512 slots are used |
| Compaction.TasksCompacted | new-mykee-lite/src/mci_menu.c:656-681 | the task table is compacted if fewer than 512 slots are used or the backup is erased beyond its first sector |
| Compaction.TasksAlignedTwice | new-mykee-lite/src/mci_menu.c:656-681 | running the compaction of the task table again changes nothing, if each run has few enough slots or an erased backup |
| CompactionLimits.TasksCompactedAlways | new-mykee-lite/src/mci_menu.c:656-681 | the task table is compacted for every content of the backup if and only if fewer than 512 slots are used, or it is full with only tombstones beyond its first sector |
| CompactionEngine.Compactor.EraseRegion | new-mykee-lite/src/mci_menu.c:584-599 | three erases at steps of 1000 bytes erase one sector; the other region keeps its content |
| CompactionEngine.Compactor.BackUp | new-mykee-lite/src/mci_menu.c:606-612 | the copied slots are programmed over the backup, the table stays |
| CompactionEngine.Compactor.WriteBack | new-mykee-lite/src/mci_menu.c:614-627 | the records that are not tombstones, and the end of the table, are programmed one after another over the table |
| CompactionEngine.Compactor.AlignUsers | new-mykee-lite/src/mci_menu.c:600-655 | both user variants end in the table the theorems above speak of, and change nothing outside the two regions |
| CompactionEngine.Compactor.AlignTasks | new-mykee-lite/src/mci_menu.c:656-681 | the task variant ends in the table the theorems above speak of, with both sectors of the table erased, and changes nothing outside the two regions |
| CompactionEngine.RegionsFit | new-mykee-lite/src/menu_main.h:64-90 | the regions of users, tasks and backup lie apart and have the sizes the loops assume |
| EventRing.WritesErasedSlot | new-mykee-lite/src/protocol_comm.c:126-151 | every record is written to an erased slot and so stored as it is |
| EventRing.LogKeepsHistory | new-mykee-lite/src/protocol_comm.c:126-151 | logging keeps the ring in step with the history |
| EventRing.RunHolds | new-mykee-lite/src/protocol_comm.c:126-151 | after any number of log steps from an erased log, every slot holds what the whole history says |
| EventRing.SuffixHeld | new-mykee-lite/src/protocol_comm.c:126-151 | the ring holds every record from the oldest one kept to the newest |
| EventRing.EnoughHeld | new-mykee-lite/src/protocol_comm.c:126-151 | nothing is lost in the first lap, and later at least 28001 - 2047 of the newest records are there |
| EventDelivery.StepKeeps | new-mykee-lite/src/tcp_client_event.c:113-193 | every step that does not log into a full ring or take a reply for an erased slot keeps the delivery invariant |
| EventDelivery.RoomToLog | new-mykee-lite/src/protocol_comm.c:126-151 | the cursors meet with the newest record waiting exactly when all the ring is ahead of the read cursor |
| EventDelivery.RunKeeps | new-mykee-lite/src/tcp_client_event.c:113-348 | over every interleaving of such steps, with lost packets and replies, records are acknowledged in log order, only after having been sent, none is passed over unless it was erased, and every record in the ring that is not acknowledged can still be sent |
| EventDelivery.StartHolds | new-mykee-lite/src/mci_menu.c:110-111 | an erased log with both cursors at 0 meets the delivery invariant |
| EventDelivery.NextRecord | new-mykee-lite/src/tcp_client_event.c:113-193 | the slot at the read cursor holds the next record of the history and is pending, or is erased |
| EventReplies.AcknowledgesExactly | new-mykee-lite/src/tcp_client_event.c:309-348 | a reply acknowledges a slot if and only if it is 16 bytes long and begins with the index of the slot, the serial number and the checksum of both |
| EventReplies.DamagedAcknowledgesNothing | new-mykee-lite/src/tcp_client_event.c:309-348 | an acknowledging reply with any one of its first eight bytes changed acknowledges no slot of any cabinet |
| EventReplies.DamagedReplyIgnored | new-mykee-lite/src/tcp_client_event.c:309-348 | after such a reply all slots and the read cursor are as before |
| EventReplies.OnlyThatReply | new-mykee-lite/src/tcp_client_event.c:309-348 | a reply changes a slot or the read cursor only if one is awaited and it begins with the checked header of the slot at the cursor |
| EventHazards.ExactlyAllowed | new-mykee-lite/src/tcp_client_event.c:113-348 | a step leaves a state from which delivery stays orderly whatever follows if and only if it neither logs while the cursors meet with the newest record waiting, nor takes an acknowledging reply while the slot at the read cursor is not pending |
| EventHazards.ExactlyAllowedRun | new-mykee-lite/src/tcp_client_event.c:113-348 | a run keeps to those two conditions throughout if and only if delivery is safe at every point of it |
| EventHazards.OvertakenDisorders | new-mykee-lite/src/protocol_comm.c:126-151 | after a record is logged into a full ring, a run follows in which it is acknowledged while an older record still waits |
| EventHazards.OvertakenUnsent | new-mykee-lite/src/tcp_client_event.c:309-348 | if a reply is being waited for at that time, the reply to the old packet acknowledges the new record, which was never sent |
| EventHazards.StaleReplyLoses | new-mykee-lite/src/tcp_client_event.c:309-348 | after a reply for an erased slot, logging brings a record to that slot that is neither acknowledged nor pending, and so is never sent |
| EventHazards.FullReached | new-mykee-lite/src/protocol_comm.c:126-151 | the full ring is reached from an erased log |
| EventHazards.FullReachedWaiting | new-mykee-lite/src/protocol_comm.c:126-151 | the full ring is reached from an erased log while a reply is being waited for |
| EventHazards.StaleReached | new-mykee-lite/src/tcp_client_event.c:309-348 | a state in which an acknowledging reply is for an erased slot is reached from an erased log |
| EventProgress.FailureCalms | new-mykee-lite/src/tcp_client_event.c:113-193 | a turn that fails brings the state machine nearer to idle and changes nothing else |
| EventProgress.FirstDelivered | new-mykee-lite/src/tcp_client_event.c:113-348 | from every state of the delivery invariant with room in the ring, turns and replies alone lead to the acknowledgement of the first waiting record |
| EventProgress.Stalled | new-mykee-lite/src/tcp_client_event.c:113-193 | an idle node whose cursors meet stays as it is, whatever comes, until a record is logged |
| EventProgress.ProgressExactly | new-mykee-lite/src/tcp_client_event.c:113-348 | from an idle node the first waiting record can be delivered without logging if and only if the ring is not full of waiting records |
| EventReboot.WriteCursorRecovered | new-mykee-lite/src/protocol_comm.c:81-99 | the write cursor is found again if and only if it is 0, or is not the last slot and either in its first lap or not at the start of a sector; otherwise 0 is found |
| EventReboot.ReadCursorRecovered | new-mykee-lite/src/protocol_comm.c:99-114 | with records waiting, the read cursor is found at the first of them if and only if that is not slot 0 and the ring is not full of them; with none waiting it is the write cursor found |
| EventReboot.RestartResumes | new-mykee-lite/src/protocol_comm.c:81-114 | after a restart the delivery invariant holds again, counted from the first record still waiting, if and only if the write cursor is one that is found and, with records waiting, the first of them is not in slot 0 and they do not fill the ring |
| EventLog.EventLog.LogEvent | new-mykee-lite/src/protocol_comm.c:126-151 | on flash, logging is the log step of the ring |
| EventLog.EventLog.InitEvents | new-mykee-lite/src/protocol_comm.c:81-114 | the two scans over flash find the two cursors the theorems speak of |
| EventLog.EventLog.StateInit | new-mykee-lite/src/tcp_client_event.c:113-193 | the idle step starts an exchange for a pending record, or passes a slot that is not pending |
| EventLog.EventLog.CheckEventReceive | new-mykee-lite/src/tcp_client_event.c:309-348 | a reply marks the slot and moves the cursor exactly when it matches |
| EventLog.EventLog.Receive | new-mykee-lite/src/tcp_client_event.c:451-487 | a received message ends the exchange, and only one of 16 bytes is looked at |
| EventPacket.Sender.HandleProtocolPacket | new-mykee-lite/src/tcp_client_event.c:219-290 | the buffer holds the index of the slot, the identity of the cabinet, the fields of the record, the checksum of all that, and padding |
| EventPacket.PacketSays | new-mykee-lite/src/tcp_client_event.c:250-289 | the packet of a record that LogEvent built says what was logged, high bytes first: time, the low half of the code, user, the low byte of the key, and task; its checksum is accepted |
| FirmwareCrc.BitStepBijective | new-mykee-lite/src/telnet_server.c:105-110 | the step of the check register has a two-sided inverse |
| FirmwareCrc.RegisterOfWord | new-mykee-lite/src/telnet_server.c:89-115 | a message of up to four bytes acts on the register as one word |
| FirmwareCrc.WindowDetected | new-mykee-lite/src/telnet_server.c:89-115 | two images that differ only inside a window of at most four bytes never share a check value |
| FirmwareCrc.PolynomialShows | new-mykee-lite/src/telnet_server.c:105-110 | the bit that leaves the register last brings in the polynomial 0xEDB88340 |
| FirmwareCrc.Residue | new-mykee-lite/src/telnet_server.c:89-115 | every message followed by its check value, low byte first, leaves the register that four zero bytes leave |
| FirmwareCrc.ResidueExactly | new-mykee-lite/src/telnet_server.c:89-115 | four bytes behind a message leave that register if and only if they are its check value, low byte first |
| FirmwareUpload.TaggedExactly | new-mykee-lite/src/telnet_server.c:118-136 | the string comparison with its dropped zero bytes accepts exactly the blocks that end in the sixteen tag bytes |
| FirmwareUpload.OneMoreByte | new-mykee-lite/src/telnet_server.c:212-233 | a byte completes a block exactly when 256 have come |
| FirmwareUpload.StaysInBoot | new-mykee-lite/src/telnet_server.c:133-207 | for any announced number of blocks, with the 16-bit packet number, no block is stored beyond the erased sectors if and only if 2 to 1025 are announced |
| FirmwareUpload.MarkerMeansComplete | new-mykee-lite/src/telnet_server.c:118-210 | the marker is in block 0 if and only if all blocks have come, the last is tagged and carries the check value of the stored ones; then flash holds every block in between and the first one was tagged |
| FirmwareUpload.FieldIsLittle | new-mykee-lite/src/telnet_server.c:153-200 | the four bytes before the tag are read low byte first |
| FirmwareUpload.PassesExactly | new-mykee-lite/src/telnet_server.c:153-200 | a last block passes if and only if it ends in the tag and the stored blocks followed by its four bytes leave the register of four zero bytes |
| FirmwareUpload.MarkerExactly | new-mykee-lite/src/telnet_server.c:118-210 | told by the received blocks alone, the marker is in block 0 if and only if all have come, the last ends in the tag, and the middle blocks with the four bytes leave that register |
| FirmwareUpload.Uploader.CrcCalculationFw | new-mykee-lite/src/telnet_server.c:89-115 | the nested loops compute the check value of the stored blocks, and leave the last of them in the buffer |
| FirmwareUpload.Uploader.FirstBlock | new-mykee-lite/src/telnet_server.c:133-152 | a first block without the tag is ignored, with it the four boot sectors are erased |
| FirmwareUpload.Uploader.MiddleBlock | new-mykee-lite/src/telnet_server.c:201-207 | a middle block is stored under its number |
| FirmwareUpload.Uploader.LastBlock | new-mykee-lite/src/telnet_server.c:153-200 | the marker is written exactly when the image passes; either way the upload has ended |
| FirmwareUpload.Uploader.HandleFtpChar | new-mykee-lite/src/telnet_server.c:212-233 | every byte keeps the commit invariant, and the image is what has come since the first tagged block |
| FirmwareUpload.Uploader.Feed | new-mykee-lite/src/telnet_server.c:212-233 | any chunk of the stream keeps the commit invariant and adds to what was received, so that the result does not depend on how the stream is cut |
| FirmwareUpload.Uploader.Abandon | new-mykee-lite/src/tcp_client_fw.c:305-312 | giving an upload up keeps the commit invariant, and no later byte is taken |
| Quorum.ShortKeepsId | new-mykee-lite/src/task_management.c:2952-2970 | a user id survives the signed 16-bit variable exactly when it is below 32768 or at least 2^32 - 32768, and becomes 0 exactly when it is a multiple of 65536 |
| Quorum.LoginTakesOne | new-mykee-lite/src/task_management.c:2970-2982 | a successful login takes exactly its code from the missing approvers; the code 0 takes none |
| Quorum.SecondLogin | new-mykee-lite/src/task_management.c:2970-2982 | one user can approve twice if and only if the list names that user twice |
| Quorum.UnprovenFails | new-mykee-lite/src/task_management.c:2950-3290 | a login without a finger, a right PIN or a card that needs none changes nothing but the count of failures |
| Quorum.BlankCodeFails | new-mykee-lite/src/task_management.c:2950-3290 | so does a typed or received code that is 0 or -1 in 16 bits, with or without the PIN |
| Quorum.ProvenApproves | new-mykee-lite/src/task_management.c:2950-3290 | a missing approver whose code comes through the 16 bits approves by finger, PIN or card alike |
| Quorum.ApprovesExactly | new-mykee-lite/src/task_management.c:2950-3290 | a login takes an approver if and only if it is proven, its code is not blank, the approver is listed under a code that comes through the signed 16 bits, and that code is what becomes of the id typed, sent, or found with the code, the card or the finger |
| Quorum.Approval.MultipleTaskAccess | new-mykee-lite/src/task_management.c:2950-3290 | a login succeeds exactly when the dialogue admits it and its code is in a slot, and then empties the first such slot |
| Quorum.Approval.Approve | new-mykee-lite/src/task_management.c:758-943 | for every finite sequence of turns, whoever logs in, the loop and its exit are the run of the turns on values that the lemmas below speak of |
| Quorum.TurnsConserve | new-mykee-lite/src/task_management.c:775-935 | over every sequence of turns the count is one, plus the approvers taken from the list, plus the logins with code 0, and no approver is lost or made up |
| Quorum.CountedAreProven | new-mykee-lite/src/task_management.c:775-935 | over every sequence of turns the logins that count, those with code 0 among them, are among the proven ones, and no login serves for two |
| Quorum.FreeLogin | new-mykee-lite/src/task_management.c:2970-2982 | a login counts without an approver if and only if it is admitted, its id is a multiple of 65536 and a slot is empty; it leaves the list as it is |
| Quorum.UnapprovedAccess | new-mykee-lite/src/task_management.c:775-935 | for every required number of users above 1 and every list with an empty slot, card logins of a user with id 65536, one fewer than that number, give access with every approver still missing |
| Quorum.AccessMeansApproved | new-mykee-lite/src/task_management.c:758-943 | after any sequence of turns that gives access, those who approved are listed, are not the user who asked, and are distinct users if the listed codes are distinct; they are as many as required if and only if the number of logins with code 0 is a multiple of 256 |
| Quorum.AccessNeedsApprovers | new-mykee-lite/src/task_management.c:758-943 | if no login of any turn resolves to the code 0, access takes exactly one approver fewer than the required number of users |
| Quorum.StepsOver | new-mykee-lite/src/task_management.c:848-920 | a turn ends above the required count if and only if the count was one short and both logins of the turn succeed, or was reached before the first turn and one succeeds |
| Quorum.NoAccessAbove | new-mykee-lite/src/task_management.c:926-929 | once the count is above the required one, no sequence of turns without a login of code 0 gives access |
| Quorum.ReachedIsAccess | new-mykee-lite/src/task_management.c:922-942 | a turn that is not cut short gives access if and only if it leaves the required count and fewer than five failures in a row |
| Quorum.LeftAtOnce | new-mykee-lite/src/task_management.c:782-942 | a closed door or the escape key ends the loop at once |
| Quorum.FailuresEnd | new-mykee-lite/src/task_management.c:782-942 | the fifth failure in a row ends the loop, and no earlier one does |
| Quorum.QuietEnds | new-mykee-lite/src/task_management.c:782-942 | without a key or a card the loop ends after as many turns as are left, and not before |
| Quorum.LoginRestarts | new-mykee-lite/src/task_management.c:848-920 | a key or a card leaves thirty turns, and a success leaves no failures |
| Quorum.FingerIsFirst | new-mykee-lite/src/task_management.c:802-920 | of the two logins of a turn the finger is taken first, so that the failures it leaves are those of the key or card |
| Quorum.ApprovalEnds | new-mykee-lite/src/task_management.c:782-942 | the loop ends within 230401 turns if in no turn both logins resolve to the code 0, or if neither an empty slot nor a code that comes through the 16 bits is listed |
| Quorum.ApprovalEndsExactly | new-mykee-lite/src/task_management.c:758-943 | for every required number of users, turns that keep the loop going for ever exist if and only if some slot of the list is empty, names the user who asks, or holds a code below 32768 or at least 2^32 - 32768 |
| Custody.StepKeeps | new-mykee-lite/src/task_management.c:1461-1644 | every transition keeps the custody invariant, among it that in returning mode a mark of 2 means the key is out with the session's user |
| Custody.CustodyAlternates | new-mykee-lite/src/key_menu.c:368-508 | over every run of user, emergency and unauthorised transitions the removals and returns logged for a key alternate and end in its present state, and a session return after a session removal is by the user who took the key, as far as its 16-bit record tells users apart |
| Custody.ReturnIsByHolder | new-mykee-lite/src/task_management.c:1594-1644 | a return logged in a session is of a key that was out and recorded as held by that user |
| Custody.TakerReturns | new-mykee-lite/src/task_management.c:1190-1238 | in a session of the user who took a key, some input logs that user's return of it if and only if the user's id is below 65536 |
| Custody.TakerReturnsMarked | new-mykee-lite/src/task_management.c:1594-1644 | in the returning mode that follows the login of that user, the returned key is logged if and only if the id is below 65536 |
| Custody.ScanKeeps | new-mykee-lite/src/key_menu.c:368-508 | the scan of all positions, with its flag carried from one key to the next, keeps the logs of all keys consistent |
| CustodyTruth.LoggedIsSo | new-mykee-lite/src/task_management.c:1455-1644 | if the readings of the places are right, whatever the input logs is so: the fob of a removed key is not in its place, that of a returned one is, and an alarm for a wrong fob is for a wrong fob |
| CustodyTruth.StateFollowsPlace | new-mykee-lite/src/key_menu.c:368-508 | and the recorded state of a key changes only to what its place says |
| CustodyTruth.LoginMarks | new-mykee-lite/src/task_management.c:1003-1053 | a removing session marks what is wanted: 1 if it is in, 2 if its user has it out; a returning one marks what its user has out; a session is for one key exactly when that is asked for or one key alone is marked 1 |
| CustodyTruth.RunKeepsMarks | new-mykee-lite/src/task_management.c:1003-1644 | over every run a key marked 2 is recorded with the session's user and not as in, and a key marked 1 is recorded as in |
| CustodyTruth.TakenExactly | new-mykee-lite/src/task_management.c:1455-1545 | a session logs a removal exactly when it is a removing one, the place is blank, and the key is recorded as in |
| CustodyTruth.ReturnedExactly | new-mykee-lite/src/task_management.c:1190-1238 | a matching fob is logged as returned exactly when its key is out and recorded with the session's user |
| CustodyTruth.MarkedReturnExactly | new-mykee-lite/src/task_management.c:1594-1644 | by its mark a key is returned in the returning mode only, which then goes over to removing |
| CustodyTruth.SessionEnds | new-mykee-lite/src/task_management.c:1539-1543 | the end of a session leaves keys and log, and a login during one changes nothing |
| CustodyTruth.EmergencyExactly | new-mykee-lite/src/key_menu.c:1802-1861 | in an emergency a blank place is a removal exactly when its key is in, and a matching fob a return exactly when its key is out |
| CustodyTruth.ScanExactly | new-mykee-lite/src/key_menu.c:379-507 | what the scan logs and changes for one key, and when its flag is still up for the next |
| CustodyTruth.SingleTakesOne | new-mykee-lite/src/task_management.c:1539-1543 | a session for one key takes one at most, whatever happens until the next login |
| KeyCabinet.Cabinet.UpdateKeyLog | new-mykee-lite/src/protocol_comm.c:162-209 | the user, cut to 16 bits, and the state of one key are set |
| KeyCabinet.Cabinet.StartSession | new-mykee-lite/src/task_management.c:1003-1053 | a session marks the keys to remove and the keys to return |
| KeyCabinet.Cabinet.EndSession | new-mykee-lite/src/task_management.c:1539-1543 | the end of a session leaves keys and log as they are |
| KeyCabinet.Cabinet.TakeKey | new-mykee-lite/src/task_management.c:1455-1545 | a key is logged as taken when its place is empty while it is recorded as in |
| KeyCabinet.Cabinet.ReturnKey | new-mykee-lite/src/task_management.c:1190-1238 | a key is logged as returned when it is back, out, and held by the session's user |
| KeyCabinet.Cabinet.ReturnMarkedKey | new-mykee-lite/src/task_management.c:1594-1644 | the returning mode goes by the mark instead of the state |
| KeyCabinet.Cabinet.EmergencyTakeKey | new-mykee-lite/src/key_menu.c:1802-1832 | an emergency removal records the user with the key and logs no user |
| KeyCabinet.Cabinet.EmergencyReturnKey | new-mykee-lite/src/key_menu.c:1834-1861 | an emergency return of a key that is out logs no user, whoever brings it |
| KeyCabinet.Cabinet.KeyCheckAt | new-mykee-lite/src/key_menu.c:379-507 | one position of the scan logs an unauthorised removal of a key that is in, or an unauthorised return of one that is out |
| KeyCabinet.Cabinet.KeyCheck2 | new-mykee-lite/src/key_menu.c:368-508 | the scan without a user is the scan of the custody model |

## Left out

Assumptions and simplifications:

- The flash chip itself is assumed to clear bits when programmed and to set 64 KiB to 0xFF when erased; the driver above it is modelled from its source.
- Addresses beyond the 2 MiB of the chip, which it would take modulo its size, are not reached by the modelled callers.
- Plain `char` is taken as unsigned when the check value of the last firmware block is put together, as the compiler of the firmware does by default.
- Buffers are whole arrays; a pointer into the middle of one is an array and an index.
- Records are sequences of bytes, and an id is compared by the bytes it is stored in.
- Keypad, card reader, fingerprint sensor, door switch, clock and network are inputs that may take any value.
- Copies of the key records in memory and in flash, which the code keeps equal, are one array.

Statements with a condition:

- CbcEngine.Cbc.Decrypt: promises nothing when output and input are one buffer; the last ciphertext block it chains on would be overwritten.
- Heartbeat.Link.EncryptPacket: counts of 8 bits whose blocks, with the extra one of a partial length, fit the send buffer; beyond that the code writes outside it.
- Heartbeat.Link.Receive: frames whose pad count leaves at least two bytes and no more than the local buffer holds; with others the code reads or writes outside its buffers.
- RecordStore.RecordStore.Store: on a table that is not well formed only the slots are promised, not a map; the modelled commands keep every table well formed.
- EventDelivery.RunKeeps: holds for runs that keep to the two conditions, which nothing in the code enforces; `EventHazards.ExactlyAllowed` shows that they are exact.
- FirmwareUpload.Uploader.Feed: an upload of 2 to 1025 blocks, which is exactly what the erased sectors allow; block 0 is promised only its bytes 24 to 26, since the check value routine leaves a stored block in the buffer.
- KeyCabinet.Cabinet.UpdateKeyLog: the guard against key numbers that do not exist, and the card, PIN, task and time of the record, are left out; no modelled caller passes such a number.
- Custody.CustodyAlternates: from an empty log; writing all key states anew, as after a reset or an override, is the start of a new run.

Not modelled:

- The display, the menus, buzzers, LEDs, relays and solenoids.
- Sockets, name lookup, UART, Bluetooth, card and fingerprint protocols.
- The flags that remember whether a table needs compaction, and the field layout of records beyond the ids, the finger flag and the event marks.
- The command that adds a user under a fixed id, and the variants that are compiled out.
- The encryption of the event packet (new-mykee-lite/src/aesencriptionwipro.c:550-580), 32 bytes through the modelled CBC routine, and its transmission.
- What runs after a restart has been asked for; a restart ends a run.
