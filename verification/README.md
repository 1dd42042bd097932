# Models and proofs for the hostapd 2.6 / iw 4.9 tree

This project models the parts of the tree whose behaviour is decided by code
rather than by I/O, and proves what they are for:

- the HLR/AuC gateway (`hlr_auc_gw.c`): a state machine over subscribers and GSM
  triplets, driven by command lines, with its 48-bit SQN arithmetic, its cyclic
  triplet cursor, resynchronisation, and the file it saves and reloads
  (`Sqn`, `SqnFreshness`, `Milenage`, `TripletCursor`, `Gateway`, `GatewayRuns`,
  `GatewayReplies`, `MilenageFile`, `MilenageSpelling`);
- the configuration builders of hostapd (`config_file.c`): the NAI realm table
  with interior pointers, the MAC ACL, the cellular network list and the domain
  list (`NaiRealm`, `EapMethods`, `RealmGrammar`, `MacAcl`, `MacListFile`, `CellNet`, `DomainList`);
- the 802.11 element parsers and the scheduled scan parser of iw (`scan.c`):
  `RsnElement`, `ElementWalk`, `SchedScan`, `ScanCommand`;
- the text and bitmap codecs of iw (`util.c`, `coalesce.c`, `bitrate.c`):
  `HexMask`, `Coalesce`, `RuleFile`, `SsidEscape`, `VhtRates`, `WepKeys`.

`Bits`, `ByteOrder`, `CStrings`, `Spelling` and `Netlink` hold what the others
share: machine words as naturals with explicit bit operations and widths,
big-endian blocks and memcmp, C strings, decimal and hex spellings told by their
digits, and netlink messages as attribute trees with open nests.

State that the C code updates in place is a class or an array with `modifies`
clauses. Each loop is a method that is proved equal to a function on the inputs
or on the old state; the theorems are about those functions and about whole runs.
What a text is read as is told from its spelling, and what a message carries by
attribute numbers, in terms that neither the parsers nor the builders use.

Conversions of the C library (`strtoul`, `atoi`, `sscanf`) and the Milenage
functions f1 and f2345 are function-valued parameters, so the results hold for
any of them. Where a result needs something of a conversion, it says so in a
predicate (`HexMask.ReadsBytes`, `SchedScan.KeywordsAreWords`,
`EapMethods.Inverse`, `VhtRates.ReadsDigits`, `RuleFile.Understands`), which is proved for a model of
`strtoul` or `atoi`.

Where the C code would leave a block, use what nobody has set or follow a null
pointer, the model does not exclude the input: the result says so (`Outside`,
`UsesUnset`, `NullRead`), and the theorems say for exactly which inputs that
happens.

## Results that differ from what one might expect

- A batch of challenges passes in every delivery order exactly up to 2^IND-length
  of them; in every longer one some order is refused
  (`SqnFreshness.BatchBoundExact`).
- The triplet cursor is fair to consecutive lookups of one IMSI. Interleaved
  lookups can keep a triplet from ever being handed out
  (`TripletCursor.SharedCursorStarves`); they stay fair to an IMSI exactly as long
  as the cursor passes none or all of its triplets between two of its lookups
  (`TripletCursor.InterleavedFairIff`).
- `parse_vht_chunk` keeps the result of `sscanf` in an unsigned variable, so the EOF
  of a blank chunk passes for a large count and unset variables are used
  (`VhtRates.UnsetIffBlank`, `VhtRates.EmptyChunk`).
- The coalesce handler looks for the end of a line from its sixth byte on: with a
  first line of fewer than five characters it searches bytes nobody has written
  (`Coalesce.HandleAccepts`, `Coalesce.ShortFirstLine`). The show handler follows a
  null pointer for rules without delay or condition (`Coalesce.NullReadIff`).
- `parse_hex_mask` allocates strlen/2 + 2 value bytes, which is too little for
  texts with empty components: the text ":::" is written past the block, and
  "::::-" returns a length the block does not have (`HexMask.ThreeColons`,
  `HexMask.TooLongForItsBlock`). `HexMask.WritesOutsideIff` and
  `HexMask.ParsesInsideIff` say exactly which texts do this, and
  `Coalesce.HandleAccepts` which rule files do.
- `update_milenage_file` writes a line over the line buffer without ending it, so
  the end of a longer line stays behind as a line of its own. A saved file reads
  back exactly when all its entry lines are clean in that respect
  (`MilenageFile.SurvivesIffClean`); one with a RES length never does, unless that
  field begins a comment (`MilenageFile.ResLenDoesNotSurvive`), one of single-spaced
  five-field lines always does.
- Such a file then restores the latest SQN exactly when the subscriber's line
  starts with its IMSI or the SQN is unchanged: an indented line is read but never
  rewritten (`MilenageFile.ReloadLookups`, `MilenageFile.IndentedLineKeepsOldSqn`).
- A comment line that does not fit the reader's 200-byte buffer makes the file
  unreadable: its end arrives as a line of its own
  (`MilenageSpelling.LongCommentRefused`).
- Joining the realms of a `nai_realm` line gives its list back exactly when the
  list has no trailing separator (`NaiRealm.JoinRealms`).
- The element walk compares the length byte with what is left including the
  header, so it visits one header more exactly when that element overruns the
  buffer by one or two bytes (`ElementWalk.WalkOnAnyBuffer`), and `ie_ssid` can
  select it (`ElementWalk.SsidInsideIff`, `ElementWalk.OverrunSelected`).
- `parse_3gpp_cell_net` accepts the empty text and texts whose separators do not
  alternate; an accepted text is what the stored element says exactly when they
  do (`CellNet.AcceptedRoundTripsIffTidy`, `CellNet.UntidyAccepted`).
- A stored domain list decodes to its names exactly when none is longer than 255
  bytes (`DomainList.DecodeEncoded`, `DomainList.LongNameLost`).
- An empty byte pattern prints as an empty text, which does not parse as an empty
  pattern (`HexMask.ParsePrinted`).
- A word that is not for the scheduled scan parser ends it with error 0; lists and
  the flag for a random address, which are put last, are then not in the message
  (`ScanCommand.CommandSaysClauses`).
- The usage text of `parse_keys` names indexes 0 to 3; the code takes any digit,
  and so does `WepKeys`.

## Model

| member | source | states |
|---|---|---|
| `Sqn.IncSqn` | hostapd-2.6/hostapd/hlr_auc_gw.c:712-731 | the six bytes, rewritten in place, spell the old SQN with SEQ and IND each advanced by one in its own ring, for every IND length 0 to 30 |
| `Sqn.ReadValue` | hostapd-2.6/src/utils/common.h:203-248 | the 32-bit and 16-bit big-endian reads, shifted and or'ed, give the number the six bytes spell |
| `Sqn.WriteValue` | hostapd-2.6/src/utils/common.h:203-248 | the 32-bit and 16-bit writes store exactly the 48-bit number |
| `Sqn.IncrementIsAdvance` | hostapd-2.6/hostapd/hlr_auc_gw.c:712-731 | the shifted and masked word, cut to 48 bits, is the SQN with both halves advanced, including both wrap-arounds |
| `SqnFreshness.IncTimesClosedForm` | hostapd-2.6/hostapd/hlr_auc_gw.c:712-731 | after n increments SEQ is SEQ0 + n and IND is IND0 + n, each reduced in its ring |
| `SqnFreshness.IncreaseIffRoom` | hostapd-2.6/hostapd/hlr_auc_gw.c:712-731 | an increment makes the 48-bit value larger if and only if SEQ is not exhausted |
| `SqnFreshness.AdvanceMonotone` | hostapd-2.6/hostapd/hlr_auc_gw.c:712-731 | until SEQ is exhausted a later SQN is larger and has a larger SEQ |
| `SqnFreshness.BatchIndDistinct` | hostapd-2.6/hostapd/hlr_auc_gw.c:712-731 | at most 2^IND-length consecutive SQNs have pairwise distinct INDs |
| `SqnFreshness.BatchFreshInAnyOrder` | hostapd-2.6/hostapd/hlr_auc_gw.c:712-731 | such a batch, delivered in any order with any repetitions, passes the per-IND check of section C.2.2 of 3GPP TS 33.102: first deliveries accepted, repetitions refused |
| `SqnFreshness.LongerBatchCanFail` | hostapd-2.6/hostapd/hlr_auc_gw.c:712-731 | in every longer batch, while SEQ has room, there is a delivery order that is refused |
| `SqnFreshness.BatchBoundExact` | hostapd-2.6/hostapd/hlr_auc_gw.c:712-731 | a batch passes in every delivery order if and only if it has at most 2^IND-length SQNs |
| `ByteOrder.MemcmpComparesValues` | hostapd-2.6/src/crypto/milenage.c:270-323 | memcmp on blocks of equal length orders them as the big-endian numbers they spell |
| `Milenage.CheckOfGenerated` | hostapd-2.6/src/crypto/milenage.c:173-323 | a generated challenge is accepted with the same keys if and only if its SQN is newer than the peer's, else the peer asks to resynchronise |
| `Milenage.AutsOfSyncFailure` | hostapd-2.6/src/crypto/milenage.c:208-323 | the AUTS of a peer's failure validates and carries exactly the peer's SQN |
| `TripletCursor.LookupRotates` | hostapd-2.6/hostapd/hlr_auc_gw.c:362-384 | a lookup returns the head of the IMSI's cyclic list at the cursor and moves it to the back |
| `TripletCursor.LookupsWalkTheCycle` | hostapd-2.6/hostapd/hlr_auc_gw.c:362-384 | n lookups from any cursor walk the IMSI's triplets in cyclic order; none if it has none |
| `TripletCursor.CycleDistinct` | hostapd-2.6/hostapd/hlr_auc_gw.c:362-384 | the cycle holds each triplet of the IMSI exactly once and no other |
| `TripletCursor.LookupsDistinct` | hostapd-2.6/hostapd/hlr_auc_gw.c:362-384 | k lookups for an IMSI with k triplets return each exactly once; fewer are pairwise distinct |
| `TripletCursor.LookupFailsIffNone` | hostapd-2.6/hostapd/hlr_auc_gw.c:362-384 | NULL is returned exactly when the list has no triplet for the IMSI |
| `TripletCursor.SameNextIff` | hostapd-2.6/hostapd/hlr_auc_gw.c:362-384 | two cursors give the same triplet of an IMSI if and only if none or all of its triplets lie on the way from one to the other |
| `TripletCursor.InterleavedFairIff` | hostapd-2.6/hostapd/hlr_auc_gw.c:362-384 | while any IMSIs are looked up in any order, the lookups of one walk its triplets in cyclic order if and only if, at each of them, the cursor has passed none or all of its triplets since its previous one |
| `TripletCursor.SharedCursorStarves` | hostapd-2.6/hostapd/hlr_auc_gw.c:362-384 | two IMSIs taking turns over a list of three triplets keep one from being handed out, however many lookups are made |
| `Gateway.HlrAucGw.constructor` | hostapd-2.6/hostapd/hlr_auc_gw.c:1004-1109 | the gateway starts with the lists it read and a NULL cursor |
| `Gateway.ScanList` | hostapd-2.6/hostapd/hlr_auc_gw.c:570-586 | the walk along the list ends at the first subscriber with the IMSI, or at the end without one |
| `Gateway.HlrAucGw.GetMilenage` | hostapd-2.6/hostapd/hlr_auc_gw.c:570-586 | the first subscriber in list order with the IMSI, from the gateway's own list |
| `Gateway.HlrAucGw.GetGsmTriplet` | hostapd-2.6/hostapd/hlr_auc_gw.c:362-384 | both scans and the cursor update, in place |
| `Gateway.HlrAucGw.DrawAuths` | hostapd-2.6/hostapd/hlr_auc_gw.c:616-631 | one challenge per random draw, none at all when a draw fails |
| `Gateway.HlrAucGw.TakeTriplets` | hostapd-2.6/hostapd/hlr_auc_gw.c:633-648 | the triplets and the cursor after the triplet loop |
| `Gateway.HlrAucGw.SimReqAuth` | hostapd-2.6/hostapd/hlr_auc_gw.c:589-659 | whole new state and reply of a SIM request, with its error paths |
| `Gateway.HlrAucGw.AnswerAll` | hostapd-2.6/hostapd/hlr_auc_gw.c:683-700 | the answers to up to three RANDs, refused when one is malformed |
| `Gateway.HlrAucGw.GsmAuthReq` | hostapd-2.6/hostapd/hlr_auc_gw.c:662-709 | reply of a GSM request; nothing changes |
| `Gateway.HlrAucGw.AkaReqAuth` | hostapd-2.6/hostapd/hlr_auc_gw.c:734-808 | whole new state and reply of an AKA request |
| `Gateway.HlrAucGw.AkaAuts` | hostapd-2.6/hostapd/hlr_auc_gw.c:811-863 | whole new state and reply of an AUTS report |
| `Gateway.HlrAucGw.ProcessCmd` | hostapd-2.6/hostapd/hlr_auc_gw.c:866-882 | the command dispatch as one step of the state machine |
| `GatewayRuns.ServeAll` | hostapd-2.6/hostapd/hlr_auc_gw.c:866-926 | serving any command list takes the gateway object to the state of the run and gives the replies in order |
| `GatewayRuns.StepEffect` | hostapd-2.6/hostapd/hlr_auc_gw.c:570-882 | one command changes exactly the SQN its event names; Ki, OPc, AMF and all other subscribers stay |
| `GatewayRuns.RunFollowsHistory` | hostapd-2.6/hostapd/hlr_auc_gw.c:570-882 | over every command sequence each subscriber evolves by its own events alone, and the changed flag tells whether any SQN was touched |
| `GatewayRuns.SqnAfterHistory` | hostapd-2.6/hostapd/hlr_auc_gw.c:734-863 | after any run the SQN is the last reported one advanced once per challenge issued since |
| `GatewayRuns.NextChallengeIncreases` | hostapd-2.6/hostapd/hlr_auc_gw.c:734-863 | after any run the next challenge raises the SQN if and only if SEQ has room, and then exceeds the last reported SQN |
| `GatewayRuns.IssuedIsConsecutive` | hostapd-2.6/hostapd/hlr_auc_gw.c:734-808 | the SQNs issued in a run without resynchronisation are consecutive |
| `GatewayRuns.IssuedChallengesAreFresh` | hostapd-2.6/hostapd/hlr_auc_gw.c:712-808 | the challenges issued in any such run of at most 2^IND-length requests, whatever is interleaved, are all accepted in any delivery order |
| `GatewayRuns.AutsCommandParses` | hostapd-2.6/hostapd/hlr_auc_gw.c:811-839 | the AUTS command of a peer is parsed to exactly its IMSI, AUTS and RAND |
| `GatewayRuns.ChallengeAfterRun` | hostapd-2.6/hostapd/hlr_auc_gw.c:734-808 | after any run the challenge carries the last reported SQN advanced once for itself and each challenge since, and any peer accepts it if and only if its own SQN is below that; RES has 8 bytes unless 4 to 7 are configured, and none without a vector |
| `GatewayRuns.ResyncRestoresService` | hostapd-2.6/hostapd/hlr_auc_gw.c:734-863 | after a peer's synchronisation failure is reported, the next challenge is accepted by that peer, whatever commands for others come in between, if and only if the peer's SEQ is not the last one |
| `GatewayReplies.SimRequestAnswered` | hostapd-2.6/hostapd/hlr_auc_gw.c:589-631 | a SIM request for a known IMSI is an error if and only if one of the draws it needs fails; otherwise it gets as many challenges as are written behind the IMSI (1, 2 or 3; 3 when nothing or anything else is written there), number t with the RAND of draw t and with Kc and SRES given byte by byte from f2345 |
| `GatewayReplies.SimRequestServed` | hostapd-2.6/hostapd/hlr_auc_gw.c:589-659 | a SIM request served from triplets gets exactly the number written in it, in cyclic order, pairwise distinct when there are enough, and fails exactly without any |
| `GatewayReplies.SimRequestParses` | hostapd-2.6/hostapd/hlr_auc_gw.c:589-606 | a request text is understood as its IMSI and the number written behind it |
| `GatewayReplies.DrawnChallenges` | hostapd-2.6/hostapd/hlr_auc_gw.c:616-631 | challenge t is made from draw t; a failed draw anywhere leaves none |
| `GatewayReplies.ChallengeIsDerived` | hostapd-2.6/src/crypto/milenage.c:235-253 | Kc and SRES byte by byte from CK, IK and RES, or nothing when f2345 fails |
| `GatewayReplies.GsmRequestAnswered` | hostapd-2.6/hostapd/hlr_auc_gw.c:662-700 | the first three RANDs of a GSM request, in hex of either case with ':' between them, are answered in order with their Kc and SRES; the request is an error when one of them is no RAND |
| `GatewayReplies.GsmRequestRefused` | hostapd-2.6/hostapd/hlr_auc_gw.c:662-709 | a GSM request without RANDs is an error, one for an unknown IMSI a failure, or an error when the reply has no room for that |
| `GatewayReplies.GeneratedVector` | hostapd-2.6/src/crypto/milenage.c:173-197 | AUTN byte by byte from SQN, AK, AMF and MAC-A, with IK, CK and RES of f2345; no vector if and only if one of the functions fails |
| `GatewayReplies.AkaRequestRefused` | hostapd-2.6/hostapd/hlr_auc_gw.c:734-789 | after any run an unknown IMSI gets a failure, or an error when the reply has no room for that, and a failed draw an error; the state does not change |
| `GatewayReplies.LongImsiIsError` | hostapd-2.6/hostapd/hlr_auc_gw.c:589-789 | an IMSI that leaves no room in the reply is an error; an AKA request for a known one has advanced its SQN all the same |
| `GatewayReplies.AutsRefused` | hostapd-2.6/hostapd/hlr_auc_gw.c:811-845 | an AUTS command without its fields, with bad hex in one of them or for an unknown IMSI is an error and changes nothing |
| `GatewayReplies.OtherCommand` | hostapd-2.6/hostapd/hlr_auc_gw.c:866-882 | any other command is an error and changes nothing |
| `GatewayReplies.AutsBelievedIff` | hostapd-2.6/hostapd/hlr_auc_gw.c:811-863 | an AUTS takes its SQN over if and only if its tag is f1* of that SQN with a zero AMF; nothing else changes and nothing is replied |
| `MilenageFile.ReadMilenage` | hostapd-2.6/hostapd/hlr_auc_gw.c:387-493 | the list built from the lines, latest first, or failure at the first malformed line |
| `MilenageFile.UpdateOne` | hostapd-2.6/hostapd/hlr_auc_gw.c:518-550 | one line through the reused 500-byte buffer: a rewritten line has no NUL of its own, so what the buffer held behind it is printed too |
| `MilenageFile.UpdateMilenageFile` | hostapd-2.6/hostapd/hlr_auc_gw.c:496-567 | everything printed for all lines, with the buffer carried from line to line |
| `MilenageFile.PrintedIsNew` | hostapd-2.6/hostapd/hlr_auc_gw.c:518-550 | whatever the buffer held, a line is printed unchanged or as its owner's five fields followed by the end of the old line, if that was longer |
| `MilenageFile.SavedTextReads` | hostapd-2.6/hostapd/hlr_auc_gw.c:387-567 | for every readable file of complete lines the printed text is delivered by fgets, into the reader's 200-byte buffer, as exactly the new lines |
| `MilenageFile.EntryLength` | hostapd-2.6/hostapd/hlr_auc_gw.c:387-493 | an entry line is never shorter than its rewriting |
| `MilenageFile.ParseRendered` | hostapd-2.6/hostapd/hlr_auc_gw.c:537-546 | a rewritten line reads back as the entry it was written from, without its RES length |
| `MilenageFile.UpdateThenRead` | hostapd-2.6/hostapd/hlr_auc_gw.c:387-567 | a rewritten file of clean lines stays readable and gives the expected entry for every entry line |
| `MilenageFile.SurvivesIffClean` | hostapd-2.6/hostapd/hlr_auc_gw.c:387-567 | a saved file reads back with the same number of entries if and only if no rewritten line leaves a text behind that the reader does not skip |
| `MilenageFile.FiveFieldsClean` | hostapd-2.6/hostapd/hlr_auc_gw.c:537-546 | an entry line with exactly the length of five single-spaced fields leaves nothing behind |
| `MilenageFile.SixthFieldNotClean` | hostapd-2.6/hostapd/hlr_auc_gw.c:387-567 | such a line leaves a text behind that the reader does not skip |
| `MilenageFile.ParseWithResLen` | hostapd-2.6/hostapd/hlr_auc_gw.c:471-482 | a line with a RES length behind its five fields is an entry with that RES length |
| `MilenageFile.ResLenDoesNotSurvive` | hostapd-2.6/hostapd/hlr_auc_gw.c:387-567 | no file survives being saved in which an entry line that starts with its IMSI has a sixth token not beginning with '#', whatever the spacing and whatever follows |
| `MilenageFile.ReloadLookups` | hostapd-2.6/hostapd/hlr_auc_gw.c:387-586 | for clean lines, save and reload keeps every lookup with its Ki, OPc and AMF, and the latest SQN if and only if its line starts with the IMSI or the SQN is unchanged |
| `MilenageFile.SaveReloadRoundTrip` | hostapd-2.6/hostapd/hlr_auc_gw.c:387-935 | from text to text: load a well laid out file, run any commands, exit with update whatever the line buffer held, load what was printed: every IMSI finds the latest SQN and the same keys, also with repeated IMSIs |
| `MilenageFile.ReadRenders` | hostapd-2.6/hostapd/hlr_auc_gw.c:387-493 | whatever is read from a file can be rendered into the line buffer |
| `MilenageFile.ConcatOfLines` | hostapd-2.6/hostapd/hlr_auc_gw.c:408-412 | the pieces fgets delivers make up the file, whatever the buffer size |
| `MilenageFile.IndentedLineKeepsOldSqn` | hostapd-2.6/hostapd/hlr_auc_gw.c:518-550 | an indented entry is read but never rewritten: after a reload it has the old SQN |
| `MilenageSpelling.SpelledFileReads` | hostapd-2.6/hostapd/hlr_auc_gw.c:387-493 | every file of comments, empty lines and subscriber lines (IMSI, four hex fields in either case, an optional decimal RES length of 0 or 4 to 16) is read, as exactly its subscribers, last first, with these RES lengths |
| `MilenageSpelling.ListedParses` | hostapd-2.6/hostapd/hlr_auc_gw.c:420-489 | a subscriber line is its subscriber if the IMSI has at most 19 characters and the RES length is 0 or 4 to 16, and refused otherwise |
| `MilenageSpelling.BadLineStops` | hostapd-2.6/hostapd/hlr_auc_gw.c:471-482 | such a RES length, or an IMSI of 20 characters or more, stops the reader with an error; the lines before it have been read |
| `MilenageSpelling.PlainFileReads` | hostapd-2.6/hostapd/hlr_auc_gw.c:387-493 | the text of every such file without RES lengths is delivered line by line, read as its subscribers, and well laid out |
| `MilenageSpelling.LongCommentRefused` | hostapd-2.6/hostapd/hlr_auc_gw.c:406-445 | a comment of 200 characters is delivered in two pieces and its end is refused |
| `MilenageSpelling.WrittenFileRoundTrip` | hostapd-2.6/hostapd/hlr_auc_gw.c:387-935 | write any such file, start with it, run any commands, exit with -u and read it again: every lookup finds the subscriber exactly as the run left it |
| `NaiRealm.OffsetsOf` | hostapd-2.6/hostapd/config_file.c:1397-1404 | the pointers of an entry as offsets into its buffer |
| `NaiRealm.Patch` | hostapd-2.6/hostapd/config_file.c:1415-1424 | the pointers recomputed from the offsets at the new address |
| `NaiRealm.Relocate` | hostapd-2.6/hostapd/config_file.c:1392-1425 | after a move to any address all pointers lie in their own entry's buffer and the table reads as before |
| `NaiRealm.MovedMeansSame` | hostapd-2.6/hostapd/config_file.c:1406-1424 | a copied and patched entry spells the same texts |
| `NaiRealm.CutOne` | hostapd-2.6/hostapd/config_file.c:1504-1514 | one realm stored through its pointer and terminated in place |
| `NaiRealm.CutRealms` | hostapd-2.6/hostapd/config_file.c:1501-1514 | all realms of the copied list stored in place, or too many |
| `NaiRealm.FillEntry` | hostapd-2.6/hostapd/config_file.c:1427-1514 | the new entry's pointers spell exactly the realms of the line, and its encoding and EAP methods are those of the line |
| `NaiRealm.SpelledLineRead` | hostapd-2.6/hostapd/config_file.c:1427-1514 | every encoding, realm list and EAP method list that fits one line is read from the line that spells it |
| `Spelling.AtoiReads` | hostapd-2.6/hostapd/hlr_auc_gw.c:473 | atoi reads every decimal number, whatever follows its digits |
| `Spelling.Decimal` | hostapd-2.6/hostapd/hlr_auc_gw.c:473 | every number has a decimal spelling |
| `Spelling.DecimalUnique` | hostapd-2.6/hostapd/hlr_auc_gw.c:473 | digits spell one number only |
| `Spelling.StrtoulReads` | iw-4.9/scan.c:164 | strtoul reads every decimal number up to its end; one that is too large becomes ULONG_MAX |
| `Spelling.HexStr2BinReads` | hostapd-2.6/src/utils/common.c:170-189 | hexstr2bin reads every spelling of the bytes, in either case |
| `EapMethods.TakeAuth` | hostapd-2.6/hostapd/config_file.c:1473-1493 | the next [id:value] of a method, with all its marks before the end of the method |
| `EapMethods.ReadAuths` | hostapd-2.6/hostapd/config_file.c:1473-1493 | up to four parameters, refused when one is broken or a fifth follows |
| `EapMethods.ReadEaps` | hostapd-2.6/hostapd/config_file.c:1457-1499 | up to five methods with their parameters, refused otherwise |
| `EapMethods.SpelledEapsRead` | hostapd-2.6/hostapd/config_file.c:1457-1499 | behind any text, every list of up to five methods with up to four parameters each is read from its spelling |
| `EapMethods.AtoiInverse` | hostapd-2.6/hostapd/config_file.c:1472-1487 | atoi reads every decimal spelling in front of any of the marks |
| `EapMethods.ThreeDigitsSpell` | hostapd-2.6/hostapd/config_file.c:1472-1487 | every byte has a decimal spelling |
| `RealmGrammar.PartIff` | hostapd-2.6/hostapd/config_file.c:1473-1493 | a method is read with n parameters if and only if it is n complete [id:value] brackets, whatever stands around them, and no further bracket, and n is at most 4 |
| `RealmGrammar.LineAcceptedIff` | hostapd-2.6/hostapd/config_file.c:1427-1523 | a line is accepted if and only if it has a comma, at most 255 characters and 10 realms in its realm list, and at most 5 methods, each with at most 4 parameters, all of them complete |
| `NaiRealm.RealmConfig.constructor` | hostapd-2.6/src/ap/ap_config.h:204-219 | an empty table is consistent |
| `NaiRealm.RealmConfig.ParseNaiRealm` | hostapd-2.6/hostapd/config_file.c:1385-1523 | a call keeps every pointer of every counted entry inside that entry's buffer and every text, and appends the new entry exactly on success |
| `NaiRealm.RealmConfig.ParseAll` | hostapd-2.6/hostapd/config_file.c:1385-1523 | after any sequence of calls, failed ones included, the table reads as the accepted lines in order |
| `NaiRealm.JoinRealms` | hostapd-2.6/hostapd/config_file.c:1501-1514 | joining the realms with ';' gives the list back if and only if it has no trailing ';' |
| `MacAcl.RemoveInArray` | hostapd-2.6/src/utils/os.h:579-586 | the memmove keeps the order of the other members, loses exactly the one at the index as a multiset, and leaves a stale copy in the last place |
| `MacAcl.RemoveMatching` | hostapd-2.6/hostapd/config_file.c:171-183 | the in-place loop, whose index stays where a member was taken out, leaves exactly the members with another address, in order |
| `MacAcl.MacList.RemoveAll` | hostapd-2.6/hostapd/config_file.c:171-183 | the counted part of the array has lost exactly the entries of the address |
| `MacAcl.MacList.Append` | hostapd-2.6/hostapd/config_file.c:193-206 | the reallocated array holds the old entries and the new one behind them |
| `MacAcl.MacList.TakeLine` | hostapd-2.6/hostapd/config_file.c:141-207 | one line adds, removes, is skipped or is refused |
| `MacAcl.MacList.TakeLines` | hostapd-2.6/hostapd/config_file.c:141-207 | the line loop applies the operations up to the first bad line |
| `MacAcl.MacList.ReadMaclist` | hostapd-2.6/hostapd/config_file.c:122-214 | error code for missing files and bad lines; on success a sorted permutation of the list the lines ask for, on failure the unsorted list up to the bad line |
| `MacAcl.Qsort` | hostapd-2.6/hostapd/config_file.c:114-211 | ordered by memcmp of the addresses with no entry lost or added |
| `MacAcl.NoLaterRemoval` | hostapd-2.6/hostapd/config_file.c:171-183 | no operation after the last removal of an address removes it |
| `MacAcl.OpsKeepMeant` | hostapd-2.6/hostapd/config_file.c:141-207 | after any add and remove lines each address has, in order, exactly the entries added since its last removal, after the starting ones if never removed |
| `MacAcl.LoadedHoldsMeant` | hostapd-2.6/hostapd/config_file.c:122-214 | the sorted list holds for each address, as a multiset, exactly those entries |
| `MacAcl.MacList.Found` | hostapd-2.6/src/ap/ap_config.c:627-650 | binary search finds an entry of the address, and fails only when there is none |
| `MacAcl.LoadThenAsk` | hostapd-2.6/src/ap/ap_config.c:617-650 | after loading a file, an address is found if and only if the lines mean it to be listed, with an entry they gave it |
| `MacAcl.AddrRoundTrip` | hostapd-2.6/src/utils/common.c:40-68 | an address in colon form is parsed to its bytes at any position of any text |
| `MacAcl.LineOps` | hostapd-2.6/hostapd/config_file.c:141-207 | the text of an address on a line adds it without VLAN; with '-' in front it removes it |
| `MacListFile.AtonIff` | hostapd-2.6/src/utils/common.c:40-68 | an address is read if and only if its six bytes stand there in hex, in either case, with ':' between them |
| `MacListFile.LineMeans` | hostapd-2.6/hostapd/config_file.c:141-207 | every comment, empty line, address, address with a decimal VLAN id and withdrawn address is understood as it is meant |
| `MacListFile.RefusedIff` | hostapd-2.6/hostapd/config_file.c:141-169 | a line is skipped if and only if it is empty or a comment; any other is refused if and only if no address stands at its beginning, or behind a '-' there |
| `MacListFile.FileMeans` | hostapd-2.6/hostapd/config_file.c:141-207 | the operations of a file are the meanings of its lines |
| `MacListFile.LoadWritten` | hostapd-2.6/src/ap/ap_config.c:617-650 | after loading a written file an address is found if and only if it is listed after it was last withdrawn, with one of the VLAN ids written for it |
| `CellNet.CountPlmns` | hostapd-2.6/hostapd/config_file.c:1319-1325 | refuses other characters and counts the separators |
| `CellNet.PutPlmn` | hostapd-2.6/hostapd/config_file.c:1359-1366 | three bytes at the cursor, nothing else in the buffer changes |
| `CellNet.PutPlmns` | hostapd-2.6/hostapd/config_file.c:1341-1367 | the loop never writes past the buffer and fails exactly on a badly cut network |
| `CellNet.ParseCellNet` | hostapd-2.6/hostapd/config_file.c:1310-1382 | the stored element for every text, or failure |
| `CellNet.DecodeBcd` | hostapd-2.6/hostapd/config_file.c:1359-1366 | the three bytes decode to the same MCC and MNC, two- and three-digit MNCs kept apart |
| `CellNet.EncodeDecode` | hostapd-2.6/hostapd/config_file.c:1310-1382 | every well-formed list of 1 to 42 networks becomes 5 + 3n bytes with consistent length fields that decode to it; longer lists are refused |
| `CellNet.AcceptedRoundTripsIffTidy` | hostapd-2.6/hostapd/config_file.c:1310-1382 | for every accepted text: the element decodes to a list that spells the text if and only if the separators alternate |
| `CellNet.UntidyAccepted` | hostapd-2.6/hostapd/config_file.c:1310-1382 | the empty text is accepted and stores network 000/000 |
| `DomainList.CountDomains` | hostapd-2.6/hostapd/config_file.c:3177-3182 | the number of comma-separated names |
| `DomainList.FillDomains` | hostapd-2.6/hostapd/config_file.c:3183-3198 | every byte of the buffer is written: lengths where names start, the text one place back elsewhere |
| `DomainList.StoreDomains` | hostapd-2.6/hostapd/config_file.c:3166-3202 | the strlen + 1 bytes are exactly the length-prefixed names |
| `DomainList.DecodeEncoded` | hostapd-2.6/hostapd/config_file.c:3183-3198 | length-prefixed names decode to themselves if and only if each has at most 255 bytes |
| `DomainList.LongNameLost` | hostapd-2.6/hostapd/config_file.c:3183-3198 | a name of 256 bytes is stored with length 0 and cannot come back |
| `DomainList.StoredListRoundTrips` | hostapd-2.6/hostapd/config_file.c:3166-3202 | what is stored for any text decodes to comma-free names that join to the text, exactly under that condition |
| `RsnElement.ParseEncoded` | iw-4.9/scan.c:805-962 | an RSN record cut after any optional field is parsed back, with defaults for the rest |
| `RsnElement.ParseDecomposes` | iw-4.9/scan.c:805-962 | for every body, the fields in order re-encode, together with the bytes left, to exactly the input |
| `RsnElement.ParseStops` | iw-4.9/scan.c:805-962 | for every body the parser stops only where the next field does not fit; what is left is reported from the capabilities on, and before them if and only if it begins with the count of a list that does not fit |
| `RsnElement.TakeEncoded` | iw-4.9/scan.c:805-962 | an encoded field is taken off whatever follows it |
| `RsnElement.TakenEncodes` | iw-4.9/scan.c:805-962 | a taken field is valid and encodes to what was consumed |
| `RsnElement.ReadBlocks` | iw-4.9/scan.c:849-852 | the suites of a list, read inside the body |
| `RsnElement.ReadList` | iw-4.9/scan.c:843-856 | a counted list if it fits in what is left |
| `RsnElement.ReadField` | iw-4.9/scan.c:805-962 | one field through the data/len cursor, no read leaving the body |
| `RsnElement.PrintFrom` | iw-4.9/scan.c:805-962 | consumed plus remaining is the total at every field |
| `RsnElement.PrintRsn` | iw-4.9/scan.c:805-962 | the parser for RSN, WPA and OSEN bodies, from its first field |
| `ElementWalk.PrintIes` | iw-4.9/scan.c:1844-1865 | the headers visited on any buffer; the loop ends |
| `ElementWalk.WholeTiles` | iw-4.9/scan.c:1844-1865 | the whole elements are exactly the front of the buffer |
| `ElementWalk.WalkOnAnyBuffer` | iw-4.9/scan.c:1844-1865 | on every buffer the whole elements in order, then one more header if and only if it overruns by one or two bytes |
| `ElementWalk.WalkOfConcat` | iw-4.9/scan.c:1844-1865 | on a concatenation exactly its elements, in order |
| `ElementWalk.IeSsid` | iw-4.9/scan.c:1868-1900 | the first visited header with id 0 |
| `ElementWalk.SsidOfConcat` | iw-4.9/scan.c:1868-1900 | on a concatenation it is the body of the first element with id 0, if any |
| `ElementWalk.SsidOnAnyBuffer` | iw-4.9/scan.c:1868-1900 | on every buffer the first whole element with id 0 is selected; without one, an overrunning last header with id 0, if any; otherwise nothing |
| `ElementWalk.SsidInsideIff` | iw-4.9/scan.c:1868-1900 | the selected body lies in the buffer if and only if a whole element has id 0 |
| `ElementWalk.OverrunSelected` | iw-4.9/scan.c:1844-1900 | on the bytes 0, 1 the overrunning header is visited and selected |
| `ElementWalk.PrintP2p` | iw-4.9/scan.c:1693-1771 | the attributes and the tail, with a one-byte length that never underflows |
| `ElementWalk.P2pSplits` | iw-4.9/scan.c:1693-1771 | every input is whole attributes followed by a tail that holds no whole attribute at its front |
| `ElementWalk.P2pOfConcat` | iw-4.9/scan.c:1693-1771 | a concatenation of attributes splits into exactly those, without tail |
| `SchedScan.ParseSchedScan` | iw-4.9/scan.c:105-401 | the argument loop ends on every argument list (tokens left, then mode) and gives the machine's result |
| `SchedScan.ClauseRun` | iw-4.9/scan.c:149-375 | from the top level the machine takes exactly one whole clause, or stops |
| `SchedScan.AcceptsConsistentClauses` | iw-4.9/scan.c:105-401 | all arguments are consumed with error 0 if and only if they are clauses of which none clashes with a later one, and then the message is exactly that of the clauses |
| `SchedScan.RunOutcome` | iw-4.9/scan.c:105-401 | on every argument list exactly one of: -EINVAL for clauses that clash; all words consumed and the message of the clauses; error 0 at the first word that is not for this parser, which is handed back; an error at a clause that cannot be read |
| `SchedScan.AcceptedRequest` | iw-4.9/nl80211.h:334-354 | then interval and plans, active and passive exclude each other, no SSID, frequency or plan is dropped, plans are numbered from 1 and all but the last have iterations |
| `SchedScan.SpelledClausesRead` | iw-4.9/scan.c:149-375 | every spelling of a clause list is read as that list, up to a word that is not for this parser |
| `SchedScan.CKeywordsAreWords` | iw-4.9/scan.c:149-304 | no keyword that opens a clause reads as a frequency |
| `SchedScan.PlanText` | iw-4.9/scan.c:333-350 | an accepted plan has no iterations exactly when the whole token is one number; otherwise its count is positive |
| `ScanCommand.MessageSays` | iw-4.9/scan.c:357-390 | a reader by attribute numbers finds behind the old message exactly the intervals, delays, addresses with masks, SSIDs, frequencies and matches of the clauses, and in nest k + 1 of attribute 225 the interval of plan k as attribute 1 and, exactly when positive, its iterations as attribute 2 |
| `ScanCommand.ClauseSpelled` | iw-4.9/scan.c:149-350 | the words of a clause, with its keyword written out and its numbers in decimal ("10:3" for a plan), are read as that clause |
| `ScanCommand.CommandSaysClauses` | iw-4.9/scan.c:75-401 | from the words of a command line to attribute numbers: clauses that clash give -EINVAL, others a message that says exactly what they ask for; in front of another parser's word that word is handed back, and lists and flags have not reached the message |
| `HexMask.NonEmptyFits` | iw-4.9/util.c:51-113 | with non-empty components the text has at most strlen/2 + 1 of them, so both allocations suffice |
| `HexMask.TakeComponent` | iw-4.9/util.c:80-98 | one component sets its value and its mask bit in place and no other; a byte behind the value block is reported as leaving it |
| `HexMask.TakeNext` | iw-4.9/util.c:73-106 | one round of the loop up to the next colon |
| `HexMask.ParseComponents` | iw-4.9/util.c:73-106 | the loop over all components, on every text: refused, outside the block, or all values and mask bits in place |
| `HexMask.ParseHexMask` | iw-4.9/util.c:51-113 | on every text: refused, outside the value block, or the values and mask bits of the components |
| `HexMask.WritesOutsideIff` | iw-4.9/util.c:51-113 | the parser writes outside the value block if and only if it reaches a byte at number strlen/2 + 2 or later after good components only |
| `HexMask.ParsesInsideIff` | iw-4.9/util.c:51-113 | a pattern is returned inside the blocks if and only if all components are good and at most strlen/2 + 2; every longer good text leaves the block when written or read, no text that fits does |
| `HexMask.ThreeColons` | iw-4.9/util.c:51-113 | the text ":::" stores its fourth byte behind a block of three |
| `HexMask.TooLongForItsBlock` | iw-4.9/util.c:51-113 | the text "::::-" returns five components for a block of four bytes |
| `HexMask.StrtoulReadsNothing` | iw-4.9/util.c:88-92 | strtoul reads an empty component as 0 |
| `HexMask.PatternOfRepresents` | iw-4.9/util.c:51-113 | bit k is set exactly for a byte at k; values agree, wildcards are zero |
| `HexMask.RepresentsUnique` | iw-4.9/util.c:51-113 | the items determine values and mask |
| `HexMask.PrintPattern` | iw-4.9/coalesce.c:258-265 | the printing loop shows the items of values and mask |
| `HexMask.ParsePrinted` | iw-4.9/wowlan.c:460-467 | the printed text parses to the same items if and only if there is at least one |
| `HexMask.PrintedStaysInside` | iw-4.9/wowlan.c:460-467 | a printed pattern is parsed back inside the blocks |
| `HexMask.ReparsedPattern` | iw-4.9/coalesce.c:258-265 | print and parse keeps length, mask bits and unmasked bytes, with zero in wildcard places |
| `HexMask.SamePackets` | iw-4.9/nl80211.h:3913-3923 | values and mask accept exactly the packets the list of optional bytes accepts |
| `HexMask.StrtoulReadsBytes` | iw-4.9/util.c:51-113 | strtoul reads every two-digit byte back |
| `Coalesce.RunRules` | iw-4.9/coalesce.c:16-163 | the line machine ends between rules exactly on files of complete rules, with rules and patterns numbered through the file, and leaves a block exactly when a pattern text does before anything else is wrong |
| `Coalesce.HandleAccepts` | iw-4.9/coalesce.c:16-163 | on every file exactly one of: error 0 with all nests closed and holding exactly the rules, if and only if the file is complete valid rules whose pattern texts fit; memory touched that must not be, if and only if the first line has fewer than five characters or an overrunning pattern text comes before anything else wrong; error 1 |
| `Coalesce.FileStaysInside` | iw-4.9/coalesce.c:89-144 | if every pattern text fits, no block is left; error 0 implies that every pattern text fits |
| `Coalesce.ColonsOverrun` | iw-4.9/coalesce.c:89-144 | a rule with the pattern ":::" makes the handler leave a block |
| `Coalesce.ShortFirstLine` | iw-4.9/coalesce.c:43-54 | a file that begins with a line of three characters makes the handler search bytes nobody has written |
| `Coalesce.AppendPattern` | iw-4.9/coalesce.c:118-124 | one closed pattern nest with mask, values and offset |
| `Coalesce.TakePiece` | iw-4.9/coalesce.c:101-116 | the tokens of a piece, its offset, and what parse_hex_mask makes of its text |
| `Coalesce.TakePattern` | iw-4.9/coalesce.c:100-136 | one comma-separated piece through parse_hex_mask into its own nest |
| `Coalesce.ReadPatterns` | iw-4.9/coalesce.c:99-138 | the patterns of a line, all or none, numbered on |
| `Coalesce.TakePatternText` | iw-4.9/coalesce.c:89-144 | a patterns line fills and closes the rule |
| `Coalesce.TakeLine` | iw-4.9/coalesce.c:43-150 | one line in the state the machine is in |
| `Coalesce.HandleCoalesceEnable` | iw-4.9/coalesce.c:16-163 | the read loop on every file, error 1 with an unfinished rule |
| `Coalesce.PrintPatterns` | iw-4.9/coalesce.c:230-268 | the pattern loop of the show handler |
| `Coalesce.PrintRule` | iw-4.9/coalesce.c:214-269 | one rule as shown, or a null pointer followed when delay or condition is missing |
| `Coalesce.PrintCoalesce` | iw-4.9/coalesce.c:195-272 | the rule loop of the show handler on every message |
| `Coalesce.ShownIffComplete` | iw-4.9/coalesce.c:214-228 | the rules are shown to the end if and only if every one of them has its delay and its condition attribute |
| `Coalesce.NullReadIff` | iw-4.9/coalesce.c:195-228 | on every message a null pointer is followed if and only if it has rules and one of them lacks its delay or its condition attribute |
| `Coalesce.EmptyRuleNullRead` | iw-4.9/coalesce.c:214-228 | a message with an empty rule makes the handler follow a null pointer |
| `Coalesce.ShowEncodedRules` | iw-4.9/coalesce.c:195-272 | the rules of a built message are shown one by one as they were |
| `Coalesce.ShowRecoversRules` | iw-4.9/coalesce.c:16-272 | showing the message of an accepted file gives back every delay, condition and offset and, for every pattern, a text that parses to it inside its blocks |
| `RuleFile.PieceRead` | iw-4.9/coalesce.c:101-116 | a piece with a decimal offset and '+' has that offset, one without has 0, and its text is the bytes and wildcards it spells |
| `RuleFile.SpelledRulesRead` | iw-4.9/coalesce.c:165-185 | every file that spells rules (delay, condition, patterns with or without offsets; "-", "--" or "xx" for any byte; either line end) is read as exactly these rules |
| `RuleFile.WrittenRulesEnabledAndShown` | iw-4.9/coalesce.c:16-272 | enabling such a file succeeds and adds one attribute 182 with, by number, delay 1, condition 2 and the patterns 3 (mask 1, values 2, offset 3) of every rule; showing that message prints every delay, condition, offset and pattern |
| `RuleFile.StrtoulUnderstands` | iw-4.9/coalesce.c:66-111 | strtoul reads every decimal number of 32 bits and every byte in two hex digits |
| `Netlink.NestDone` | iw-4.9/coalesce.c:118-138 | a nest started, filled and ended is one attribute of its parent |
| `SsidEscape.PrintSsidEscaped` | iw-4.9/util.c:332-345 | the printing loop on every byte string |
| `SsidEscape.EscapingIsReversible` | iw-4.9/util.c:332-345 | the text decodes to the SSID, is printable, at most four characters a byte, and neither begins nor ends with a space |
| `SsidEscape.EscapedLength` | iw-4.9/util.c:332-345 | every byte takes one character if it can stand for itself (33 to 126 but not the backslash, or a space between other bytes) and four otherwise; the text begins with that of its first byte |
| `VhtRates.ParseVhtChunk` | iw-4.9/bitrate.c:7-55 | on every text exactly one of: streams and a mask whose bits are exactly the indexes named, for a valid range or list; unset variables used, when nothing was read; refused |
| `VhtRates.UnsetIffBlank` | iw-4.9/bitrate.c:34-51 | for every text: the code goes on with variables nobody has set if and only if the text is only white space |
| `VhtRates.EmptyChunk` | iw-4.9/bitrate.c:34-51 | on the empty chunk EOF, stored unsigned, passes the test for too few numbers |
| `VhtRates.SpelledChunkRead` | iw-4.9/bitrate.c:14-38 | every valid range, and every list of up to ten indexes, is read from its spelling |
| `VhtRates.RangeMeans` | iw-4.9/bitrate.c:14-32 | "N:A-B" is valid if and only if N is 1 to 8 and A at most B, and names exactly the indexes from A to B for N streams |
| `VhtRates.ListMeans` | iw-4.9/bitrate.c:34-51 | "N:A,B,..." with up to ten digits is valid if and only if N is 1 to 8, and names exactly these indexes for N streams |
| `VhtRates.ScanNumberReadsDigits` | iw-4.9/bitrate.c:14-38 | %u as strtoul reads it gives single digits their values |
| `VhtRates.SetupVht` | iw-4.9/bitrate.c:57-75 | all chunks valid: bit m of stream n is set exactly when some chunk for n covers m; otherwise the first chunk that is not valid decides between failure and the use of unset variables |
| `VhtRates.SetsUpOnce` | iw-4.9/bitrate.c:57-75 | exactly one of the three results fits a chunk list |
| `VhtRates.OnlyTenBits` | iw-4.9/bitrate.c:57-75 | no bit above 9 is set |
| `VhtRates.SameCoverSameMasks` | iw-4.9/bitrate.c:57-75 | order of the chunks and range or list spelling make no difference |
| `WepKeys.ParseKeys` | iw-4.9/util.c:386-459 | error 1 without arguments, 2 when one is no key; otherwise the privacy flag 70 and the keys in order in attribute 81 |
| `WepKeys.KeysFromIff` | iw-4.9/util.c:402-455 | keys are read if and only if every argument spells its key: an optional d or d:, one digit, a colon, and 5 or 13 characters or 10 or 26 hex digits |
| `WepKeys.KeysCarried` | iw-4.9/util.c:405-454 | nest i + 1 has, by number, index 2, cipher 3, data 1 and, for exactly the default keys, the mark 5 |
| `WepKeys.HexSpellsSameKey` | iw-4.9/util.c:347-445 | a key of 5 or 13 characters and its hex spelling give the same key |
| `WepKeys.DefaultMarked` | iw-4.9/util.c:411-452 | the default keys are those asked for, or else exactly the last; there always is one |

## Left out

- `hlr_auc_gw.c`: the SQLite subscriber store, sockets, signals, options, and the text of the replies, which are values here; `read_gsm_triplets` is not modelled, the triplet list is an input.
- Sqn.IncSqn: IND lengths 31 and 32, which the option parser also accepts, are left out, because there the shift of an `int` has no defined result.
- `hlr_auc_gw.c`: f1 and f2345 of Milenage and the random source are parameters.
- MilenageFile.ReadMilenage: takes the lines as `fgets` delivers them; files with lines of 200 characters and more, which the reader and the updater split differently, are outside the round trip.
- MilenageFile.UpdateMilenageFile: failures to open or rename the files are not modelled; a last line without newline is covered by the method, which then prints what the buffer held before, but not by the round trip.
- NaiRealm.RealmConfig.ParseNaiRealm: the size and layout of an entry are constants with the buffer before the pointers; the EAP methods are values in it.
- MacAcl.Qsort: the library sort is any ordered permutation; nothing depends on the order of equal addresses.
- MacAcl.MacList.ReadMaclist: allocation failure is not modelled, `atoi` is a parameter.
- HexMask.ParseHexMask: what a program does after leaving a block is not modelled; allocation failure and the call without a mask are left out.
- Coalesce.HandleCoalesceEnable: opening the file and lines longer than the 16768-byte line buffer are not modelled.
- Coalesce.PrintCoalesce: attributes whose payload has another type than the kernel sends count as missing.
- SchedScan.ParseSchedScan: when it stops early the message so far and the arguments left are modelled, but `handle_scan` and the caller that goes on with them are not; `mac_addr_a2n` is a parameter.
- VhtRates.ParseVhtChunk: `print_mcs_index` and the legacy and HT rate arrays are not modelled.
- RsnElement.PrintRsn and ElementWalk.PrintP2p: the text printed for values.
- ElementWalk.IeSsid: only the selection of the element; the text it builds is not modelled.
- `parse_anqp_elem`, `hostapd_parse_intlist`, `handle_scan`, `mac_addr_a2n` and the channel and frequency conversions of iw are not modelled; none of the modelled functions depends on what they compute, apart from `mac_addr_a2n`, which is a parameter.
- `wowlan.c`: only the pattern codec it shares with `coalesce.c`.
