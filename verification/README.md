# A model of NyanChat

NyanChat is a chat in three programs: clients, a proxy that adds noise to what clients send, and a
server that corrects what it can, acknowledges, asks again or announces. This project models the four
parts of it that carry the logic and proves what they promise.

- **The hash table** (`TriangularProbing`, `HashTable`, `JenkinsHash`, `GrowingInsert`, `HashTableRuns`,
  `InsertionSlots`, `Hashmap`): open addressing over a power-of-two array with triangular probing in 32-bit
  arithmetic, tombstones, growth and shrinking. The class `Hashmaps.Hashmap` changes its array in place;
  every method is tied to a function on the slots, and the functions are proved to be the operations of a
  finite map.
- **The error-correcting code** (`Gf2`, `CyclicCode`, `MatrixCode`, `Bits`, `CodeErrors`, `Messages`,
  `Correction`, `MessageCoding`): shift-register division over GF(2) for words and generators of any length,
  cyclic codes and their distance, the matrix form, then the 16-bit words, the literal generator and tables,
  the table from syndromes to errors, and the correction of whole messages.
- **The protocol** (`ChatMessages`, `ClientTable`, `Clients`, `Registry`, `Servers`, `Proxy`, `Wire`,
  `ChatSystem`, `Delivery`, `DeliverySteps`, `SystemRuns`, `DefaultChannel`, `AnnouncedLines`, `Logins`,
  `Retries`, `Takings`, `Waiting`, `Integrity`): the client's table of messages waiting for an
  acknowledgment, the server's register of names and sessions, the proxy, and the whole as a system of
  steps. The classes `ClientState` and `ServerState` are the programs' states; the server's holds the hash
  map of the first part and corrects with the code of the second.
- **The polled sockets** (`PollArray`): closing up three parallel arrays in place with two indices.

The main results:

1. Over a run of operations that each come to an end and whose growths do no harm the hash table answers
   as a finite map does, and its counter is the number of bindings, tombstones or not (`RunRefinesMap`).
   Both hypotheses are exact: `TerminatesIff` says when an operation ends, `RunRefinesExactly` that of a
   run whose operations end all do what they do to the map exactly when every growth does no harm.
   Probing covers the table, wrap-around of 32-bit products changes nothing, and rehashing never nests.
   Without growth a new key goes to the first slot of its probe that holds no key, so a removed slot is used
   again before the free one that ends the probe (`FillsFirstOpening`, `NullsDropIff`).
2. `HD` is the distance of the code, by algebra and not by listing its words. Whatever the noise, a byte
   is passed as good exactly when its noise is within one data bit of a codeword, and the bytes passed
   wrong are those of them whose control byte was disturbed (`AnyNoiseVerdict`); with at most two flips in
   each pair of data and control byte none is, and return code 0 means the message is restored
   (`MessageVerdict`). The two literal tables, the register and the built table agree.
3. In every run of the system, with any noise and any order of delivery, each line a client waits for
   has exactly one token in flight; numbers are never confused when a slot is used again; each line is
   taken at most once and signed with its sender's name; a client is told of it exactly as often as it
   was taken while that client's session was connected (`ToldExactly`). Deliveries end, and at rest every
   line has been taken exactly once. No client ever panics or leaves its table.
   From any state a request to log in is confirmed exactly when its code is right and its name free or thirty
   seconds old (`RequestMeetsVerdict`), and then its client gets connected (`LoginCompletes`).
   A line goes on the wire at most max(1, 7 - start) times, start being the counter its slot held. Every
   line that some noise can have refused meets the bound in some run (`BoundAttained`), every line taken by
   force has met it, and a line that cannot be refused is sent once (`ForcedAfterAllCopies`).
   What is shown is what was typed, except for lines taken by force, if the table is built, the control
   bytes are filled in, and no passage leaves a pair with a disturbed control byte within one data bit of
   a codeword (`ShownIsTyped`); at most two flips in a pair never do (`LightNoiseIsHarmless`).
4. Closing up the polled sockets keeps the open entries of the range it sweeps, each as often as it
   occurred, fills the closed slots from the top, and says exactly when that range is the right one.

Where the code departs from its evident intent the model follows the code:

- An insertion that grows the table goes on from a start slot computed before the growth. It does what
  a map does exactly when the probe from that slot, walked in the grown table, comes to where the key's
  own probe comes (`GrowingInsertExactly`). Inserting "a", "b" and "c" into a new table of two slots loses
  "c" (`GrowthLosesThird`, `LettersCollide`). `InsertAfterGrowth` says what starting afresh would give.
- The loop of an insertion has no bound, and a table can have no free slot without being overloaded. Then
  no insertion of a new key ends (`LoopEndsIff`). A new table of four slots gets there when "a" is
  inserted, and "b", "c" and "e" are each inserted and removed (`EndlessInsertion`, `LettersGetStuck`).
- `"$"` is the mark of a removed slot and can be inserted and removed; `ReservedKeyIsNotStored` and
  `RemovingReserved` say what happens to the bindings and to the counter.
- `encode_lfsr` adds where it means exclusive or; `EncodeLfsr` has the exact condition under which
  the result is the systematic codeword; the word 1 misses it (`SumMissesCodeword`).
- `DETECTION` promises that three flips are detected. The three of the control byte of 0x20 pass a wrong
  byte (`ThreeFlipsPass`); `PassesWrongIff` says exactly which flips do.
- Nothing builds the table of syndromes (the call at src/server.c:387 is commented out), and no client
  fills in control bytes. `UnbuiltTablePassesAll` and `SurvivesIffChecked` say what each omission
  does; as shipped, every line is sent once and taken with its noise (`ShippedTakesAtOnce`,
  `ShippedPassesNoise`). The theorems about correction take both as done, as the header intends.
- The bounds test of an acknowledgment lets through a number equal to the count of messages sent;
  `AckFaultsIff` says when that reads outside the table, `RunFaultsIff` that nothing else stops a client, and
  `NoAlias` that no run of the system gets there: only another server than this one sends such a number. One
  that did would end a new client after a login and nine lines (`FullTableFaults`, `NineLinesThenAck`).
- A client whose login succeeds at the eleventh attempt or later has counted past its table of ten
  (`LateLoginOverruns`), and growth is never triggered again; `OverrunPanicsIff` and `OverrunSpent` give
  the exact number of lines that ends the program. The proxy of this program keeps clients from that
  state: it drops the errors of a login (`ErrorsAreDropped`), and no reachable state is one (`CounterFits`).
- Login errors have no body, so the proxy drops them (`ErrorsAreDropped`). Names of three letters pass the
  client and are ignored by the server (`NameAnsweredIff`). A client whose login is refused or ignored waits
  from then on in every run (`DeniedWaitsForever`).
- Slots added by growth keep whatever counter of retransmissions the memory held, so seven copies are not
  the limit. A line may go past seven exactly when some noise can have it refused and the counter found in
  its slot is negative (`PastSevenExactly`): after a login and nine lines, a tenth whose slot comes from
  memory holding -1 is sent eight times (`EightCopies`). `SevenCopies` is the case of zeroed memory.
- The sweep over polled sockets runs to an index one past them, to a slot that holds descriptor 0 when it
  was never used; exactly when that slot is not closed one slot too many stays in use (`SlotPastTheEnd`,
  `UnusedSlotCounts`). A second socket accepted in the same turn lies beyond the sweep and is no longer
  polled (`KeptIff`, `AcceptedIsDropped`). With all slots in use the sweep reads past the arrays.

Numbers, clocks and choices come in as parameters: the hash of a key is any function, the flips of the
noise are any bits, the clock is any number handed to a step. In the system a channel is a bag of messages, so
any message in flight may arrive next; channels that keep order are a special case. `serial` in a
message and the lists `sends` and `taken` of a system are history: no branch of the program reads them.

## Model

| member | source | states |
|---|---|---|
| TriangularProbing.WrapIsHarmless | src/hashmap.c:27-28 | for every table size up to 2^31 the wrapping 32-bit evaluation of a probe is the unbounded one |
| TriangularProbing.ProbesAreDistinct | src/hashmap.c:72 | two of the first `size` steps of one probe never meet the same slot |
| TriangularProbing.ProbesCoverTable | src/hashmap.c:62-76 | a search that runs to its bound has examined every slot, from any start |
| TriangularProbing.SecondLapCoversTable | src/hashmap.c:108-113 | the next `size` steps meet every slot again, for loops entered at step 1 |
| HashTable.FindIsLookup | src/hashmap.c:62-76 | search finds the slot of a stored key and reports -1 exactly for the others |
| HashTable.GetIsLookup | src/hashmap.c:78-84 | get returns the map's value, or EMPTY |
| HashTable.NullStopIsEarly | src/hashmap.c:108-113 | an insertion loop that ends at a free slot has taken fewer than `size` steps |
| HashTable.NullEndsLoop | src/hashmap.c:108-113 | the unbounded insertion loop ends whenever some slot is free |
| HashTable.LoopEndsIff | src/hashmap.c:108-113 | it ends exactly when the key is stored or some slot is free |
| HashTable.InsertInPlaceIsMapInsert | src/hashmap.c:95-128 | an insertion without growth adds exactly the new binding, or finds the key and changes nothing; the probe chains survive |
| HashTable.RehashInserts | src/hashmap.c:46-60 | every insertion made while rehashing stays under the load threshold, so resize and insert never nest |
| HashTable.Resize | src/hashmap.c:46-60 | the new table has no tombstone, the same bindings and intact probe chains |
| HashTable.EmptyTableIsValid | src/hashmap.c:30-37 | a new table stands for the empty map |
| HashTable.IncreaseOfStored | src/hashmap.c:86-93 | increasing a stored key adds to its value modulo 2^32 and touches no other |
| HashTable.IncreaseOfAbsent | src/hashmap.c:86-93 | increasing an absent key is inserting it |
| HashTable.RemoveIsMapRemove | src/hashmap.c:130-145 | removal, shrinking or not, takes out exactly the key and returns its value |
| GrowingInsert.GrowingInsertExactly | src/hashmap.c:99-113 | a growing insertion is a map insertion exactly when the probe from the old home slot meets the stored key in the grown table, or for a new key ends at the free slot where the key's own probe ends |
| GrowingInsert.InsertAfterGrowth | src/hashmap.c:95-128 | with the start slot taken after the growth it is always a map insertion |
| GrowingInsert.LostAfterGrowth | src/hashmap.c:99-113 | when the home slot in the grown table is free and is not the slot filled, insert reports success and the next search fails |
| GrowingInsert.GrowthLosesThird | src/hashmap.c:99-113 | of three keys with residues 2, 3 and 1 modulo 4, inserted into a new table of two slots, the third is reported as added and never found |
| GrowingInsert.LettersCollide | src/hashmap.c:10-25 | with the program's hash "a", "b" and "c" are such keys |
| GrowingInsert.ReservedKeyIsNotStored | include/hashmap.h:10 | inserting the tombstone word adds no binding, and only a growing insertion can lose one; without growth it reports success exactly when a free slot comes before any tombstone on the probe; then the counter is ahead of the bindings |
| HashTableRuns.TerminatesIff | src/hashmap.c:105-113 | an operation ends exactly when it does not insert, can double an overloaded table, or finds the key stored or a slot free |
| HashTableRuns.ApplyRefines | src/hashmap.c:62-145 | an operation that ends does what it does to the map exactly when it does not grow the table or the growth does no harm |
| HashTableRuns.RunRefinesMap | src/hashmap.c:62-145 | over a run whose operations end and whose growths do no harm the table answers as the map and counts its bindings |
| HashTableRuns.RunRefinesExactly | src/hashmap.c:62-145 | of a run whose operations end, all do what they do to the map exactly when every growth does no harm |
| HashTableRuns.EndlessInsertion | src/hashmap.c:105-113 | from a new table of four slots a run leads to one key, three tombstones and no free slot, where no insertion of another key ends |
| HashTableRuns.LettersGetStuck | src/hashmap.c:10-25 | with the program's hash the letters "a", "b", "c" and "e" do it |
| InsertionSlots.SearchComparesStart | src/hashmap.c:62-76 | for any key, even one too long to store, search finds a slot exactly when the probe meets a key with the same first 256 characters before a free slot |
| InsertionSlots.FillsFirstOpening | src/hashmap.c:108-123 | without growth a new key is written at the first step of its probe whose slot is free or removed, all steps before being at keys |
| InsertionSlots.NullsDropIff | src/hashmap.c:108-123 | it uses up a free slot exactly when that probe meets no removed slot before its first free one |
| InsertionSlots.RemovalMarksOneSlot | src/hashmap.c:136-139 | a removal that does not shrink the table puts the mark in the slot of the key and changes no other |
| InsertionSlots.ResizePutsInOrder | src/hashmap.c:54-58 | in a table of a new size each key is at the first step of its probe that the keys of lower old slots left free |
| InsertionSlots.InsertSizes | src/hashmap.c:97-106 | a key longer than 256 characters is refused with -1; any other doubles the table exactly when the counter is three quarters of its size or more |
| InsertionSlots.RemoveSizes | src/hashmap.c:141-142 | removing a stored key halves a table of more than two slots exactly when less than a quarter stays in use |
| InsertionSlots.RunKeepsRoom | src/hashmap.c:105-106 | over any run whose operations end and whose growths do no harm, at most one binding is above three quarters of the size |
| InsertionSlots.RemovingReserved | src/hashmap.c:130-145 | removing the mark takes out no binding; exactly where it is found the counter drops, from zero to the largest word, and is wrong unless the table then shrinks |
| JenkinsHash.KnownWords | src/hashmap.c:10-22 | the hash of one letter, of two letters in order and of a negative character |
| Hashmaps.CeilLog2 | src/hashmap.c:33 | the exponent of the least power of two that is not below the requested size |
| Hashmaps.Hashmap.Create | src/hashmap.c:30-37 | an empty table of the least power-of-two size that is not below the request, up to 2^31 slots |
| Hashmaps.Hashmap.Resize | src/hashmap.c:46-60 | a fresh array holding the same map; it is `HashTable.Resize` |
| Hashmaps.Hashmap.Find | src/hashmap.c:62-76 | the position of a stored key, -1 for the others |
| Hashmaps.Hashmap.Get | src/hashmap.c:78-84 | the value of a stored key, EMPTY for the others |
| Hashmaps.Hashmap.Increase | src/hashmap.c:86-93 | the new table is that of `HashTable.Increase` |
| Hashmaps.Hashmap.ScanForInsert | src/hashmap.c:108-113 | the loop ends at the slot, or the earlier tombstone, where the key belongs |
| Hashmaps.Hashmap.MakeRoom | src/hashmap.c:105-106 | the table doubles exactly when it is overloaded |
| Hashmaps.Hashmap.Insert | src/hashmap.c:95-128 | table and result are those of `HashTable.Insert`; the array is replaced exactly when the table grows |
| Hashmaps.Hashmap.Settle | src/hashmap.c:141-142 | the table halves as `HashTable.Settle` says |
| Hashmaps.Hashmap.Remove | src/hashmap.c:130-145 | the map without the key, and the value it had |
| Gf2.RemOfXor | src/code_errors.c:103-113 | the remainder is linear under exclusive or |
| Gf2.RemKeepsParity | src/code_errors.c:5 | division by a generator of even weight keeps the parity |
| Gf2.Division | src/code_errors.c:103-113 | the register computes a remainder: the word is a multiple of the generator plus it |
| Gf2.DivisionIsUnique | src/code_errors.c:103-113 | no other quotient and remainder give the word |
| Gf2.MultipleIffNoRemainder | src/code_errors.c:103-113 | the remainder is zero exactly on the multiples of the generator |
| CyclicCode.WeightAtLeastFour | src/code_errors.c:5-6 | even weight, constant term 1 and x of order at least n give words of at least four ones |
| CyclicCode.DistanceAtLeastFour | src/code_errors.c:5-6 | so two codewords differ in at least four bits |
| CyclicCode.EncodedIsCodeword | src/code_errors.c:98-101 | data followed by its check bits is divisible by the generator |
| CyclicCode.CheckIsInjective | src/code_errors.c:61-70 | data words no longer than the degree have distinct check bits |
| MatrixCode.CheckMatrixIsExact | src/code_errors.c:51-59 | the check matrix of a systematic matrix has zero syndrome exactly on its code |
| MatrixCode.EncodeIsCombine | src/code_errors.c:72-83 | when the check bits are zeros, encoding completes data to the word of the code it starts |
| MatrixCode.EncodeSetsCheckBits | src/code_errors.c:72-83 | whatever the check bits are, encoding sets those of the word of the code and clears none |
| MatrixCode.CombineIsEncoding | src/code_errors.c:72-83 | when the rows come from a generator, combining them is register encoding |
| MatrixCode.SyndromeIsRemainder | src/code_errors.c:85-96 | the matrix syndrome is the remainder |
| Bits.SetBits | src/bits.c:5-8 | setting bit n changes that bit and no other |
| Bits.ChgBits | src/bits.c:15-18 | changing bit n flips that bit and no other |
| Bits.WeightOf | src/bits.c:30-37 | the branch-free count is the number of ones |
| CodeErrors.DecodeLfsr | src/code_errors.c:103-113 | the 16-bit loop computes the polynomial remainder, for any generator of degree 8 |
| CodeErrors.EncodeLfsr | src/code_errors.c:98-101 | the word is the sum of message and remainder; it is the systematic codeword exactly when the two share no bit, as when the check bits are zeros |
| CodeErrors.SumMissesCodeword | src/code_errors.c:98-101 | on the word 1 the sum is not the codeword its data starts |
| CodeErrors.GeneratorIsGood | src/code_errors.c:5 | the literal generator has even weight, constant term 1 and x of order at least 16 |
| CodeErrors.CodeDistance | src/code_errors.c:6 | every codeword but zero has at least HD ones |
| CodeErrors.TablesAreRight | src/code_errors.c:13-33 | the literal tables are the generator matrix of the generator and its check matrix |
| CodeErrors.TableDecodesAsRegister | src/code_errors.c:85-96 | decoding with H is the register's remainder, for every word |
| CodeErrors.TableEncodesAsRegister | src/code_errors.c:72-83 | encoding with G is register encoding when the check bits are zeros |
| CodeErrors.Encode | src/code_errors.c:72-83 | the loops compute matrix encoding |
| CodeErrors.Decode | src/code_errors.c:85-96 | the loops compute the matrix syndrome |
| CodeErrors.CreateCheckMatrix | src/code_errors.c:51-59 | the loops fill in the check matrix |
| Messages.ControlInjective | src/code_errors.c:129-135 | distinct bytes have distinct control bytes |
| Messages.DistanceIsAttained | src/code_errors.c:6 | some codeword has exactly HD ones |
| Messages.CodeHammingDistance | src/code_errors.c:115-125 | the search returns the least weight of a codeword, capped at K; for P it returns HD |
| Correction.CheckByteOf | src/code_errors.c:129-135 | the control byte of a data byte |
| Correction.CreateSyndromeArray | src/code_errors.c:61-70 | the built table is the exact inverse of the syndrome, for all data patterns including all ones |
| Correction.BuiltIsInverse | src/code_errors.c:61-70 | the pattern the loop leaves out is already in its slot |
| Correction.InverseBothWays | src/code_errors.c:61-70 | every entry of the table has the syndrome it is stored under |
| Correction.SyndromeOf | src/code_errors.c:137-146 | the syndrome of a pair of bytes is the difference of the control byte expected and the one received |
| Correction.CorrectedIsCodeword | src/code_errors.c:142-158 | whatever was received, the corrected byte and its control byte form a codeword |
| Correction.CorrectionIsIdempotent | src/code_errors.c:142-158 | a second correction changes nothing and flags nothing |
| Correction.DataErrorIsUndone | src/code_errors.c:142-158 | an error confined to the data byte is undone whatever its weight |
| Correction.VerdictOnByte | src/code_errors.c:142-158 | with at most two flips, a byte is passed exactly when no control bit and at most one data bit was flipped, and then it is the byte sent |
| Correction.NoiseVerdict | src/code_errors.c:142-158 | under any noise the byte comes out with the data of the codeword of its control byte's noise added, and is passed exactly when the noise of the data is within one bit of it |
| Correction.PassesWrongIff | src/code_errors.c:7-8 | a wrong byte is passed exactly when a control bit was flipped and the noise is within one data bit of a codeword |
| Correction.ThreeFlipsPass | src/code_errors.c:8 | three flips, those in the control byte of 0x20, pass a wrong byte |
| MessageCoding.CorrectorExists | src/code_errors.c:142-158 | what correction makes of a pair depends on the pair and the table alone |
| MessageCoding.AnyNoiseVerdict | src/code_errors.c:142-158 | the verdict on every byte of a message of any length under any noise |
| MessageCoding.MessageVerdict | src/code_errors.c:129-158 | with at most two flips in each pair a byte is passed exactly when no control bit and at most one data bit was flipped, and then it is the byte sent; return code 0 means the whole message is restored |
| MessageCoding.SecondPassIsIdle | src/code_errors.c:142-158 | a second pass over any message changes no byte and returns 0 |
| MessageCoding.UnbuiltTablePassesAll | src/server.c:386-387 | with the table never built, every message passes unchanged, noise and all |
| MessageCoding.SurvivesIffChecked | src/client.c:53-73 | with the table built, an undisturbed message survives exactly when its control bytes were filled in; zeros erase it |
| MessageCoding.MessageBuffers.AddControlBits | src/code_errors.c:129-135 | the control buffer gets the control byte of every data byte, and nothing beyond the message |
| MessageCoding.MessageBuffers.CorrectError | src/code_errors.c:142-158 | data, flags and return code are those of correction; nothing beyond the message changes |
| MessageCoding.MessageBuffers.InsertError | src/code_errors.c:160-174 | each pair is changed in exactly the bits chosen |
| ClientTable.TameHasNext | src/client.c:25-49 | in a tame table the search for a slot succeeds and finds a free one |
| ClientTable.AckFaultsIff | src/client.c:154-186 | an acknowledgment reads outside a tame table exactly when it bears the count of messages sent and the table is that long |
| ClientTable.OnMsgKeepsTame | src/client.c:80-193 | every message keeps occupied slots below the counter and the counter below the size, but for an acknowledgment of the slot just past a full table, which faults |
| ClientTable.RunFaultsIff | src/client.c:196-283 | over any run whose login attempts fit in the table the search never panics; the run ends early exactly when it comes to such an acknowledgment |
| ClientTable.TenAttemptsAreSafe | src/client.c:265-271 | so it is for a new client that needs at most ten attempts to log in |
| ClientTable.FullTableFaults | src/client.c:154-186 | a client that types lines until its table is full and then gets an acknowledgment of the number just past it reads outside the table |
| ClientTable.NineLinesThenAck | src/client.c:154-186 | it happens: a new client logs in, types nine lines and gets an acknowledgment of number 10 |
| ClientTable.OverrunPanicsIff | src/client.c:28-48 | once the counter has passed the size, unanswered lines end the program exactly when they outnumber the free slots |
| ClientTable.OverrunSpent | src/client.c:28-48 | after any run, acknowledgments and all, the next line ends it exactly when lines typed less slots freed have used up the free slots |
| ClientTable.LateLoginOverruns | src/client.c:265-271 | a new client that logs in at its k-th attempt has counted k messages in ten slots, nine of them free: past its table exactly from the eleventh on |
| Clients.ClientState.constructor | src/client.c:287-311 | a new client |
| Clients.ClientState.FindNextMsgId | src/client.c:25-49 | the first free slot, after doubling a full table |
| Clients.ClientState.SendMessage | src/client.c:53-73 | slot, counter and message are those of `ClientTable.Send`, the exit included |
| Clients.ClientState.TypeLine | src/client.c:196-283 | a typed line logs in, is sent or is ignored as `ClientTable.OnStdin` says |
| Clients.ClientState.Receive | src/client.c:80-193 | the handler of messages is `ClientTable.OnMsg` |
| Wire.LineOnWire | src/client.c:25-73 | a line goes out under its client's name and on its channel, as message number the least free slot, or the first new slot when the table, as long as the counter, doubles; it waits in that slot and no other slot changes |
| Wire.LineFaultsIff | src/client.c:42-48 | a line ends the program exactly when no slot is free and the table does not double |
| Wire.RequestOnWire | src/client.c:264-280 | a request bears the name typed and the client's code, is message 0, and leaves the client waiting under that name |
| Wire.TypedGoesOutIff | src/client.c:203-282 | something goes out exactly for a name of three letters or more from a client that has none and waits for none, and for a line of a connected client |
| Wire.RefusedMayAskAgain | src/client.c:105-130 | an error ends the wait and takes the name back, and clears the slot it names, so the client may ask again |
| Wire.AckReceived | src/client.c:154-186 | an acknowledgment frees its slot and its count of retransmissions, or has the message sent again with the count it brings |
| Registry.NoBadValue | src/server.c:152-169 | in a valid state neither branch that removes a bad value is taken |
| Registry.OnMsgKeepsValid | src/server.c:135-345 | names and slots agree both ways after every message |
| Registry.IndexIsSmall | src/server.c:55-63 | at most as many names as slots |
| Registry.LoginVerdict | src/server.c:150-277 | a login is confirmed exactly when it bears the stored code and its name is free or gone stale; otherwise nothing changes |
| Registry.StaleAfterThirty | src/server.c:195-216 | a connected session keeps its name for thirty seconds: with the right code a login is confirmed exactly from then on |
| Registry.NewNameVerdict | src/server.c:229-258 | a name without a session and with the right code is confirmed exactly while fewer than 196 have one, and takes the first empty slot |
| Wire.LoginOnWire | src/server.c:150-277 | a request is answered once, without a body, to the socket it came from |
| Wire.LineAnswered | src/server.c:303-330 | a line is taken when correction succeeds or its counter is above 5; it is then acknowledged and passed on, corrected and under its sender's name, to exactly the connected sessions; else it is asked for again with its counter one higher and nobody is told |
| Registry.CodesStay | src/server.c:171-200 | a stored code never changes |
| Registry.BroadcastIs | src/server.c:108-132 | a broadcast reaches every connected session and no other |
| Servers.AmpleTakesName | src/server.c:251-257 | the map of names takes a name without growing and stays free of tombstones |
| Servers.ServerState.constructor | src/server.c:55-63 | no client, no name, and a map with room for twice the clients |
| Servers.ServerState.Lookup | src/server.c:152-169 | the slot of a name, and the removal of bad values, as `Registry.Lookup` says |
| Servers.ServerState.OnConnection | src/server.c:150-277 | state and answer are those of `Registry.OnConnection` |
| Servers.ServerState.Broadcast | src/server.c:108-132 | the messages are those of `Registry.Broadcast` |
| Servers.ServerState.OnChat | src/server.c:278-344 | correction in place, then the answer of `Registry.OnChat` |
| Servers.ServerState.OnMsgReceived | src/server.c:135-345 | state and answers are those of `Registry.OnMsg` |
| Proxy.Relay | src/proxy.c:49-88 | a message is passed on, with its buffers disturbed, exactly as `OnClientReceived` says |
| Proxy.ErrorsAreDropped | src/proxy.c:116-132 | a login error never reaches the client |
| Wire.LineThroughProxy | src/proxy.c:58-84 | a line of ten bytes or more passes with exactly the flips of the noise, a shorter one as it is |
| Wire.EmptyThroughProxy | src/proxy.c:68-84 | of the messages without a body exactly acknowledgments, requests, confirmations and notices pass, both ways |
| Wire.AnswerThroughProxy | src/proxy.c:100-115 | a message of the server with a kind and a body passes exactly to the sockets in use |
| Delivery.RequestPasses | src/proxy.c:49-88 | the proxy passes every request of a client on, changing only data, control and socket |
| DeliverySteps.TokenIsLive | src/server.c:303-318 | a message about a line travels only while its client holds that line |
| DeliverySteps.StepKeeps | src/client.c:80-193 | every step keeps the invariant of the system and none stops a client |
| SystemRuns.RunKeeps | src/client.c:25-49 | so does every run: no panic and no access outside a table |
| SystemRuns.ReachableIsFine | src/client.c:25-49 | every reachable state keeps the invariant: occupied slots below the counter, conserved tokens, register in order |
| SystemRuns.CounterFits | src/proxy.c:116-132 | in every reachable state the counter of a client is at most the size of its table |
| SystemRuns.OneToken | src/client.c:53-73 | a line waited for has one token in flight and only one |
| SystemRuns.NoAlias | src/client.c:154-186 | an acknowledgment finds in its slot the very line it was made for, so the bad-acknowledgment branch is never taken |
| SystemRuns.TakenAtMostOnce | src/server.c:303-330 | each line is taken at most once |
| DefaultChannel.ReachableIsDefault | src/client.c:300-301 | in every reachable state each client, each line that waits and each line on its way to the server is on the default channel |
| AnnouncedLines.ToldExactly | src/server.c:108-132 | over any run the announcements of a line brought to a client and those still on their way are exactly as many as the times the line was taken while a session of that client was connected, which is once at most |
| AnnouncedLines.AtRestAllAreTold | src/server.c:108-132 | at rest each client that was connected when a line was taken has been told of it exactly once, and no other client at all |
| AnnouncedLines.AnnouncedOnceAndSigned | src/server.c:114-131 | in every reachable state at most one announcement of a line is on its way to a client, under the name of the client that sent the line |
| SystemRuns.SettledIsTaken | src/client.c:174-186 | a line is no longer waited for only when it has been taken |
| SystemRuns.CopiesBounded | src/server.c:303-318 | in every reachable state a line has gone on the wire at most max(1, 7 - start) times, start being the counter found in its slot; `Retries.BoundAttained` shows the bound is met |
| SystemRuns.SevenCopies | src/client.c:32-43 | when memory comes zeroed every line starts at counter zero, so it goes on the wire at most seven times, whatever the noise; `Takings.PastSevenExactly` says when it is more |
| Retries.Round | src/server.c:303-318 | from any state that keeps the invariant, a copy with an error in it whose counter is at most 5 comes back in four deliveries as one more copy of the same line, its counter one higher |
| Retries.BoundAttained | src/server.c:303-318 | from any such state and for any line that some noise can have refused, a run that starts by typing it puts it on the wire exactly max(1, 7 - start) times |
| Retries.PastSevenIff | src/server.c:98-104 | some run that starts with such a line puts it on the wire more than seven times exactly when the counter found in its slot is negative |
| Takings.PastSevenExactly | src/server.c:303-318 | for any line typed in the course of a run: exactly when, besides, some noise can have it refused |
| Retries.LongLinesAreRefusable | src/proxy.c:49-88 | with the code in place every line long enough to be disturbed can be refused |
| Retries.UnbuiltTableNeverRefuses | src/server.c:386-387 | with the table never built no line can |
| Retries.EightCopies | src/client.c:32-43 | it happens: a client of a new system logs in and sends nine lines; a tenth, its slot added by growth over memory holding -1, goes on the wire eight times |
| Takings.ForcedAfterAllCopies | src/server.c:303-330 | over any run a line taken by force was put on the wire exactly max(1, 7 - start) times, and one that no noise can have refused was put there once |
| Takings.ShippedTakesAtOnce | src/server.c:386-387 | as shipped, the table of syndromes never built, every line is put on the wire once and none is taken by force |
| Takings.ShippedPassesNoise | src/server.c:303-330 | there a line is taken as the bytes that arrived, noise and all |
| Waiting.ReachableLogsInOnce | src/client.c:265-271 | in every reachable state a client has at most one login request or confirmation under way, and none unless it waits |
| Waiting.DeniedWaitsForever | src/server.c:145-277 | a client whose request the server does not grant, refused or ignored, waits in every continuation |
| SystemRuns.NamesAgree | src/server.c:152-169 | in every reachable state names and array agree both ways and neither removal of a bad value fires |
| SystemRuns.CodesNeverChange | src/server.c:171-200 | over any run the code of a name never changes |
| SystemRuns.NameAnsweredIff | src/server.c:145-148 | the client sends names of three letters and more, the server answers those of four and more |
| Logins.RequestMeetsVerdict | src/server.c:150-277 | from any state that keeps the invariant a client's request reaches the server, which confirms it exactly when its own code is stored or none is, and its name has a session that is not connected or thirty seconds old, or none while fewer than 196 names do |
| Logins.LoginCompletes | src/client.c:131-133 | a request let in connects its client, in five steps that change nothing else but its session and the stored code |
| SystemRuns.DeliveryIsProgress | src/server.c:306-318 | each delivery lowers the weight of what is in flight |
| SystemRuns.DeliveriesEnd | src/server.c:306-318 | so deliveries end, in any order and under any noise |
| SystemRuns.CanComeToRest | src/client.c:154-186 | and from every state they lead to one with nothing in flight |
| SystemRuns.QuietMeansTaken | src/server.c:303-330 | at rest every line ever sent has been taken exactly once and none is waited for |
| Integrity.TwoFlipsAreDetectable | src/code_errors.c:6-8 | at most two flips in each pair never leave a pair with a disturbed control byte within one data bit of a codeword |
| Integrity.PassedIsTypedIff | src/server.c:306 | a filled-in line that is passed after any noise is the line typed exactly when no control byte was disturbed |
| Integrity.PassedIsTyped | src/server.c:306 | with the table built, a copy whose control bytes were filled in, and whose noise leaves no pair with a disturbed control byte within one data bit of a codeword, is corrected to the line typed if it is passed |
| Integrity.RunIsHonest | src/server.c:303-330 | over any run in which control bytes are filled in and every passage has such noise, every line taken without force is the line typed, and every announcement is a line taken |
| Integrity.ShownIsTyped | src/client.c:145-148 | with the built table, filled control bytes and such noise on every passage, what reaches a client to be shown is, unless taken by force, byte for byte what was typed, and bears the name of the client that typed it |
| Integrity.LightNoiseIsHarmless | src/client.c:145-148 | so it is when every passage flips at most two bits in each pair |
| PollArray.MoveKeepsOpen | src/tcp_connection.c:247-251 | a move neither loses nor doubles an open entry |
| PollArray.InUseIsOpen | src/tcp_connection.c:258-265 | the number of slots in use is the number that were open |
| PollArray.SlotPastTheEnd | src/tcp_connection.c:239 | as many slots stay in use as polled sockets are open exactly when the slot past them is closed; otherwise one more |
| PollArray.UnusedSlotCounts | src/tcp_connection.c:82-84 | it happens: four sockets of which one closed, and an unused slot holding descriptor 0, leave four slots in use |
| PollArray.KeptIff | src/tcp_connection.c:209-213 | sockets accepted in the same turn included, every open entry stays in use exactly when none was accepted beyond the range |
| PollArray.AcceptedIsDropped | src/tcp_connection.c:605-607 | it happens: of two connections accepted in a turn in which a socket closes the second is no longer polled |
| PollArray.TcpConnection.CompressPollSocketArray | src/tcp_connection.c:236-266 | open entries first and closed ones after; each kept as often as it occurred; those already in place unmoved, and the lowest closed slot filled with the highest open entry, the next with the next; the connection ends exactly when none is open; a full table makes the program read past its arrays; and both conditions above |

## Left out

- Sockets, `poll`, `accept`, partial receives and file descriptors: channels hold whole messages, stored code files are a map.
- Disconnections: the set of connected clients is fixed, so the reuse of the proxy's poll indices after closing up is not part of the system of steps.
- Terminal drawing, escape sequences, panels and the line editor of `src/client_ansi.c`.
- The hash is any function of the key; the Jenkins hash of the program is modelled for the keys of the two losses, with plain characters signed. Load tests in floating point are the same tests in integers.
- `hashmap_create` is taken up to 2^31 requested slots, the largest size of a table that is exact in 32 bits.
- Writing and reading a hash table to a file: the code dumps raw pointers.
- `create_generator_matrix`: it reads an 8-bit remainder as a 16-bit word and gives zeros; the literal tables are used instead. `rem_lfsr` is declared and never defined.
- `srand` and the distribution of the noise, and the making of random codes.
- Private channels and private messages: not implemented in the source.
- Termination of C strings inside a message: `strcpy` and `strcmp` stop at a zero byte, the model copies and compares the bytes in use.
- Lists of connected clients and channels of a client, which no modelled handler reads.
- Servers.ServerState.OnConnection: the records of the clients are held by value in the array rather than as objects of their own, so aliasing between records is not modelled.
- Servers.ServerState.Lookup: it asks for a name of 4 to 63 letters, which the length test at src/server.c:145 and the size of the name field give.
- Clients.ClientState.FindNextMsgId: of the memory a growth adds only the counter of retransmissions is kept, the one field of it that is read.
- What a read past the arrays of polled sockets yields: `CompressPollSocketArray` reports that it happens.
- HashTableRuns.RunRefinesMap: it asks that every insertion ends and every growth does no harm, which `EndlessInsertion` and `GrowthLosesThird` show can fail and `TerminatesIff` and `RunRefinesExactly` make exact.
- SystemRuns.SevenCopies: it asks for zeroed memory; `Takings.PastSevenExactly` says for which counters it fails.
