# Cedar switch: verified model

This project models the stateful core of the Cedar switch firmware, a
three-relay, three-input Zephyr device with a web interface and a Home Assistant
bridge over MQTT, and proves properties of it in Dafny 4.11. `dafny verify
dfyconfig.toml` checks everything.

Each table, thread or walk that the firmware updates in place is a class or a
method with the firmware's loops. Its contract ties the new state to a
specification function of the old one, and the lemmas beside it are about whole
runs of those functions: any sequence of requests, ticks, passes or interleaved
steps.

| file | component |
|---|---|
| `Text.dfy` | C string searches, splitting, decimal printing |
| `Sessions.dfy`, `Users.dfy`, `Authentication.dfy` | session tokens, user table in RAM and flash, request headers |
| `Query.dfy`, `Upload.dfy` | URL parameters, path sanity, chunked upload |
| `FileTree.dfy` | recursive deletion and size of a directory |
| `Topics.dfy` | MQTT topics and payloads, the command parser and its language |
| `HaTask.dfy`, `Reports.dfy`, `Relays.dfy` | the Home Assistant thread: one pass, status messages over runs, commands over runs |
| `TxPipe.dfy`, `Receive.dfy` | transmit queue and packet identifiers, incoming payloads |
| `Link.dfy`, `Io.dfy` | the published connection status, the relay thread and its fall-back state |
| `Bridge.dfy` | both directions end to end |

## What the proofs found

Some promises hold only under a condition. The code is modelled as it is, and the
exact condition is proved.

- Sessions. "The last ten logins, each for one hour, until the next
  initialisation" is exact for every login that shares its second with no other
  (`LoginAcceptedIff`), whatever ties there are elsewhere. For a login with a tie
  only the two bounds `AcceptedOnlyIfRecent` and `RecentIsAccepted` hold: ties go
  to the lowest slot, and in a burst of twelve the twelfth login evicts the
  eleventh (`SameSecondLoginIsLost`). A fresh token works at all exactly while its
  expiry time fits 32 bits (`FreshTokenAcceptedIff`).
- Users. Adding keeps the names unique unless the first slot is free and the
  second holds the name, or a name of 32 or more characters is cut to the one that
  the first slot holds while the second is free (`AddKeepsNamesUniqueIff`). After a deletion and a
  power-up that loads a stored list, the name is gone exactly when the deletion
  was saved, which needs a slot other than the first, or flash did not hold the
  name before; without a loaded list only the default user exists
  (`DeletionIsDurableIff`). So a deleted first user returns (`DeletedFirstUserReturns`), and a user whose saving had
  failed stays away although its deletion fails too (`DeletedUnsavedUserStaysAway`).
- A failing load at an initialisation replaces the first user by the default one
  (`InitialisationKeepsIff`).
- `fs_delete_tree` succeeds exactly on files and on directories that hold no
  directory (and whose paths fit): after deleting a subdirectory it unlinks the
  parent instead of the child. Even so every call on fitting paths removes
  something, and a directory holding nothing but one deletable subdirectory is
  gone although an error is returned (`DeleteTree`, `DeleteSubdir`).
- Upload. An offset above zero for a missing target is compared with an unset
  size. The stored content is sure to stay a prefix of the client's file exactly
  when the target exists, the piece is too large, or its bytes are the start of
  the file (`LatePieceIsSafeIff`); a client that starts over after a first piece
  could not be opened never meets the case (`CarefulClientHoldsPrefix`). At offset
  zero the result of the removal is ignored: over any earlier content, an accepted
  first piece is sure to leave a prefix of the file exactly when there was no file
  or appending the piece to it leaves one (`FirstPieceIsSafeIff`). An old version
  that is not the start of the new one stays in front of it, with a 200 reply
  (`OldVersionStays`).
- `fs_calc_dir_size` cuts the path of a subdirectory to 259 characters; from then
  on each further call gets the same text again (`SubpathGrowsIff`).
- Relays. Each relay holds the last word on it while no command meets an unread
  REST write (`LastWordDecides`). When one does, after any number of writes and
  announcements since the last pass, a relay holds it exactly when the command is
  for that relay, a later write follows, or the unread writes have not changed the
  last word on it (`RaceKeepsLastWordIff`).
- Status messages. A packet leaves the queue when the MQTT library accepts it, so
  a broken connection can lose it. Home Assistant is then right about an object
  exactly when the last status that arrived says the same as the last one sent
  (`HomeAssistantIsRightIff`). It is right about all of them again as soon as a
  pass comes more than 500 seconds after the last one that a break could have
  affected (`HomeAssistantRecovers`).
- Commands. None is lost exactly while the Home Assistant thread is never more
  than sixteen publications behind (`NothingDroppedIff`).
- Fall-back. The comment in `io.c` promises the default relay state whenever the
  connection is lost; this holds exactly when the relay thread did not look at
  the status channel before the MQTT thread first published on it
  (`DefaultStateAppliedIff`, `FallsBackIffNoEarlyLook`).
- Discovery announces the command topic of object 0 without its number; all other
  announced topics are the ones in use (`AnnouncedTopicsAreUsed`).

## Assumptions

- The clock, random tokens, the results of storage, socket and kernel calls, and
  what other threads write are parameters of the operations, so the lemmas hold
  for every value of them. SHA-256 and base64 are unknown functions.
- Session runs: the clock never steps back, no expiry time wraps round 32 bits,
  and every generated token is new (`Admissible`). Initialisations may come at any
  point of a run.
- A settings entry is written completely or not at all, and a file write that
  fails stores nothing.
- `readdir` reports each child of a directory once, in any order. An `if *` in
  `FileTree.dfy` and `Receive.dfy` is an I/O error that may strike at any call.
- Pin writes succeed.
- Packets on a connection arrive in order, and until it breaks all of them do;
  Home Assistant sees every packet that arrives at the broker.

## Model

| member | source | states |
|---|---|---|
| Sessions.SessionTable.StoreSessionToken | src/web/authentication.c:132-157 | the new token with its one-hour expiry replaces the first free slot, else the leftmost oldest one, and nothing else changes |
| Sessions.SessionTable.CheckTokenValid | src/web/authentication.c:185-207 | true exactly for a stored unexpired token; an expired match is cleared |
| Sessions.SessionTable.Clear | src/web/authentication.c:108 | all slots are free again |
| Sessions.Oldest | src/web/authentication.c:146-153 | the leftmost slot with the least expiry time |
| Sessions.ProbeKeeps | src/web/authentication.c:185-207 | clearing an expired slot never makes a live login go missing |
| Sessions.LoginKeeps | src/web/authentication.c:132-157 | a login goes missing only when ten others at least as young exist and nothing older is kept |
| Sessions.RunKeeps | src/web/authentication.c:108-207 | in every run of logins, checks and initialisations the table holds distinct logged-in tokens, and what is missing was displaced by younger logins |
| Sessions.AcceptedOnlyIfRecent | src/web/authentication.c:132-207 | for any run: an accepted token was issued since the last initialisation, is unexpired, and fewer than ten logins are strictly younger |
| Sessions.RecentIsAccepted | src/web/authentication.c:132-207 | for any run: an unexpired token is accepted while fewer than ten other logins are at least as young |
| Sessions.LoginAcceptedIff | src/web/authentication.c:132-207 | the token of a login alone in its second is accepted exactly for an hour, until ten later logins or an initialisation |
| Sessions.AcceptedIffAmongLastTen | src/web/authentication.c:132-207 | in a run without ties a token is accepted exactly when some login issued it and still counts by that rule |
| Sessions.SameSecondLoginIsLost | src/web/authentication.c:144-156 | twelve logins in one second: the eleventh token is rejected though one login followed |
| Sessions.CheckFreesExpired | src/web/authentication.c:185-207 | a check frees exactly the slot of its expired token and changes no other |
| Sessions.FreshTokenAcceptedIff | src/web/authentication.c:132-157 | a new token is accepted at once exactly when its expiry time does not wrap round |
| Users.UserTable.AuthenticationInit | src/web/authentication.c:95-107 | loads the stored list, or falls back to the default user and stores it |
| Users.UserTable.UpdateUsers | src/web/authentication.c:58-73 | saves RAM to flash unless the first slot is free or the save fails |
| Users.UserTable.CheckUserCredentials | src/web/authentication.c:165-180 | true exactly when some slot holds this name with the hash of this password |
| Users.UserTable.AddWebUser | src/web/authentication.c:297-335 | new RAM, flash and return code of adding a user |
| Users.UserTable.DeleteWebUser | src/web/authentication.c:337-377 | new RAM, flash and return code of deleting a user |
| Users.AddOutcome | src/web/authentication.c:306-334 | which names are refused and why, what a failed hash or save leaves behind, and that nobody is lost; a success is in RAM and flash |
| Users.DeleteOutcome | src/web/authentication.c:346-376 | unknown names and the last user are refused unchanged; otherwise exactly the first holder goes |
| Users.BootOutcome | src/web/authentication.c:95-107 | a first start admits the default user; a stored list is taken over unchanged; otherwise only the first slot is overwritten, and the list stored |
| Users.UpdateOutcome | src/web/authentication.c:58-73 | which lists are saved, and what each refusal returns |
| Users.OnlyOnePassword | src/web/authentication.c:165-180 | with unique names a second password for a name is never accepted |
| Users.StepKeeps | src/web/authentication.c:95-377 | no call leaves RAM without a user or flash without a first user; success means flash equals RAM |
| Users.RunKeeps | src/web/authentication.c:95-377 | the same over every run of additions, deletions, power-ups and initialisations over filled RAM (src/main.c:95) |
| Users.AddedStaysAccepted | src/web/authentication.c:297-377 | credentials added with result 0 stay accepted until that name is deleted, across failed saves and initialisations that load |
| Users.InitialisationKeepsIff | src/web/authentication.c:97-107 | stored credentials outlive an initialisation exactly when it loads, or they are the default ones, or RAM keeps them in its second slot; a power-up that fails to load leaves the default user only |
| Users.AddedSurvivesInitialisationIff | src/web/authentication.c:95-377 | the same after any run that follows a successful addition |
| Users.AddKeepsNamesUniqueIff | src/web/authentication.c:306-323 | for names of any length: adding keeps names unique unless slot 0 is free and slot 1 holds the stored form, or slot 1 is free and slot 0 holds what a too long name is cut to |
| Users.DeletionIsDurableIff | src/web/authentication.c:337-377 | for every RAM and flash content: when a deletion returns 0, and when the name is still gone after the next power-up |
| Users.DeletedFirstUserReturns | src/web/authentication.c:64-66 | deleting the first of two users fails, empties the slot in RAM, and the user is back after a power-up |
| Users.DeletedUnsavedUserStaysAway | src/web/authentication.c:366-374 | a user never saved is gone for good although its deletion reports an error |
| Authentication.Authenticator.Authenticate | src/web/authentication.c:210-295 | return code, issued token and session table follow the decision over the headers in order |
| Authentication.Authenticator.TryBasic | src/web/authentication.c:243-280 | the Basic branch: ignored, refused, or a session stored |
| Authentication.CheckOnlyMeansLiveToken | src/web/authentication.c:210-295 | a check succeeds exactly when some Cookie or Bearer header carries a live token, opens no session and leaves live ones alone |
| Authentication.AccessNeedsProof | src/web/authentication.c:210-295 | access rests on a live token, a new session on accepted credentials |
| Authentication.CookieRoundTrip | src/web/authentication.c:225-239 | a cookie printed as session_token=T is read back as T, or ignored if T is too long |
| Authentication.CookieHeaderOutcome | src/web/authentication.c:225-241 | a Cookie header is accepted exactly for a live token, whatever stands around it |
| Authentication.BearerRequestOutcome | src/web/authentication.c:284-291 | "Bearer T" is accepted exactly when T, cut to 127 characters, is live |
| Authentication.BasicRequestOutcome | src/web/authentication.c:243-280 | Basic with the encoding of name:password opens a session exactly when the table holds that name with that password |
| Authentication.OtherHeadersSayNothing | src/web/authentication.c:225-291 | other header names and other schemes are not looked at |
| Authentication.FirstSettlingHeaderDecides | src/web/authentication.c:217-294 | the first header with a live token or readable credentials decides, and whatever precedes it does not matter |
| Authentication.AddedUserLogsIn | src/web/authentication.c:210-335 | a user added with result 0 can log in after any run that spares the name |
| Authentication.LoginThenCookie | src/web/authentication.c:210-295 | a correct Basic login alone in its second succeeds, and its token opens the door for exactly one hour, or until ten further logins or the next initialisation |
| Query.QueryGet | src/web/http_common.c:45-65 | the value of the first parameter whose text before its first '=' is the key, cut to the buffer |
| Query.SearchParameters | src/web/http_common.c:50-63 | the loop refines the search over the '&'-separated parameters |
| Query.MatchIsFirst | src/web/http_common.c:51-60 | a match found through the next '=' is never cut by an '&' |
| Query.MismatchMovesOn | src/web/http_common.c:51-62 | without a match the first parameter is not the key's, even if the '=' belongs to a later one |
| Query.QueryRoundTrip | src/web/http_common.c:45-65 | printing a parameter list and looking a key up gives its first value |
| Query.PathIsSane | src/web/http_common.c:30-43 | accepts exactly paths whose segments are non-empty and neither "." nor "..", one trailing slash allowed |
| Query.SaneExactly | src/web/http_common.c:30-43 | the same in terms of the joined segments: exactly these paths pass |
| Query.SaneStaysBelow | src/web/http_common.c:30-43 | a sane path resolves strictly below its base |
| Upload.Uploader.Upload | src/web/http_common.c:70-229 | reply and new file system of one upload call |
| Upload.OffsetDecodes | src/web/http_common.c:121 | a decimal offset of any length reads as itself or as the largest long |
| Upload.MinusIsNegative | src/web/http_common.c:121-128 | a decimal offset with a minus sign reads as negative, however long |
| Upload.RestIsIgnored | src/web/http_common.c:121 | what follows the digits of an offset is ignored |
| Upload.OtherBases | src/web/http_common.c:121 | offsets in hexadecimal and octal notation |
| Upload.RefusedIff | src/web/http_common.c:88-155 | which requests are refused before the file system is touched, and with which of six reasons |
| Upload.RefusedLeavesFiles | src/web/http_common.c:88-201 | a refused request changes nothing, unless the old file was removed and the new one could not be opened |
| Upload.LatePieceOutcome | src/web/http_common.c:175-226 | the exact reply and content for every answer of the file system at a positive offset |
| Upload.FirstPieceOutcome | src/web/http_common.c:157-226 | the same at offset zero, whatever was there |
| Upload.PieceReaches | src/web/http_common.c:88-155 | the request for a piece, from its URL on, is too large or reaches its file at its offset |
| Upload.RequestsReach | src/web/http_common.c:70-229 | all requests of a client amount to their pieces applied in that order |
| Upload.PieceKeepsPrefix | src/web/http_common.c:157-226 | each call keeps a prefix of the client's file; a 200 reply is the current length |
| Upload.UploadHoldsPrefix | src/web/http_common.c:121-228 | after an accepted piece at offset zero the target is a prefix of the file for ever, whatever pieces follow |
| Upload.CarefulClientHoldsPrefix | src/web/http_common.c:157-203 | the same for every client that starts over when a first piece could not be opened, whatever the unset size is |
| Upload.LatePieceIsSafeIff | src/web/http_common.c:161-203 | a piece at a positive offset surely keeps the prefix exactly when the target exists, it is too large, or its bytes are the start of the file |
| Upload.FirstPieceIsSafeIff | src/web/http_common.c:157-203 | whatever was stored before, an accepted piece at offset zero surely leaves a prefix exactly when nothing was there or appending to it leaves one |
| Upload.OldVersionStays | src/web/http_common.c:157-226 | an old version whose removal fails stays in front of the first piece, which is answered as complete |
| Upload.GrowsBetweenRestarts | src/web/http_common.c:175-203 | without offset zero the file only grows |
| Upload.PieceAppliedOnce | src/web/http_common.c:175-185 | an offset that has added bytes is refused until the next restart |
| Upload.InOrderUploadCompletes | src/web/http_common.c:157-226 | pieces sent in order without faults leave the whole file |
| Upload.OnlyBelowBase | src/web/http_common.c:88-229 | a call changes only the file it names, and the changed path resolves strictly below the base |
| FileTree.FileSystem.DeleteTree | src/littlefs/filesystem_helpers.c:28-109 | terminates; only the subtree shrinks; 0 means it is gone; without I/O errors: 0 exactly for files and flat directories, every call on fitting paths removes something, and a directory holding just one deletable subdirectory is gone although the result is negative |
| FileTree.FileSystem.DeleteContents | src/littlefs/filesystem_helpers.c:48-102 | the loop empties the directory or gives up, as above |
| FileTree.FileSystem.DeleteEntry | src/littlefs/filesystem_helpers.c:64-101 | one entry: something is removed, or its path is too long and nothing is |
| FileTree.FileSystem.DeleteSubdir | src/littlefs/filesystem_helpers.c:71-87 | a deletable subdirectory is gone afterwards; the call goes on only if the directory itself is gone |
| FileTree.FileSystem.CalcDirSize | src/littlefs/filesystem_helpers.c:111-145 | without I/O errors adds the sizes of all files below, in 32-bit arithmetic, in whatever order they are listed |
| FileTree.FileSystem.AddEntries | src/littlefs/filesystem_helpers.c:124-141 | the loop adds every child once |
| FileTree.SumStep | src/littlefs/filesystem_helpers.c:134-140 | the sizes below one more child join the sum |
| FileTree.SubpathGrowsIff | src/littlefs/filesystem_helpers.c:136-139 | which subdirectory paths are passed on whole, and from which length on the text no longer grows |
| FileTree.RenderSplits | src/littlefs/filesystem_helpers.c:20-26 | path texts and segment lists correspond |
| Topics.DeviceId.SetDeviceId | src/mqtt/ha_mqtt_helpers.c:103-121 | stores the hexadecimal text with its terminator, or refuses and changes nothing |
| Topics.HexInjective | src/mqtt/ha_mqtt_helpers.c:103-121 | different hardware identifiers print differently |
| Topics.InputTexts | src/mqtt/ha_mqtt_helpers.c:165-181 | topic and payloads of an input, character by character |
| Topics.RelayTexts | src/mqtt/ha_mqtt_helpers.c:165-186 | topics and payloads of a relay, character by character |
| Topics.DiscoveryTexts | src/mqtt/ha_mqtt_helpers.c:188-197 | the discovery topics, character by character |
| Topics.StatusTopicsDistinct | src/mqtt/ha_mqtt_helpers.c:165-186 | different objects have different status topics |
| Topics.StatusTopicsTellDevicesApart | src/mqtt/ha_mqtt_helpers.c:165-186 | devices with different identifiers share no status topic |
| Topics.ConfigTopicsDistinct | src/mqtt/ha_mqtt_helpers.c:188-197 | different objects have different discovery topics |
| Topics.ConfigIsNotStatus | src/mqtt/ha_mqtt_helpers.c:188-197 | no discovery topic is a status topic |
| Topics.AnnouncedTopicsAreUsed | src/mqtt/ha_mqtt_helpers.c:230-292 | announced state topics are published ones; announced command topics are the subscribed ones exactly for numbers other than 0 |
| Topics.TemplateShowsItsObject | src/mqtt/ha_mqtt_helpers.c:294-313 | the announced template shows exactly its own object's state |
| Topics.StateWordIff | src/mqtt/ha_mqtt_helpers.c:328-348 | on is "on" in any case or "1", off is "off" in any case or "0", and nothing else is a state |
| Topics.ParserAcceptsExactly | src/mqtt/ha_mqtt_helpers.c:351-412 | the exact language of topics and payloads in characters, and the command each one yields |
| Topics.CommandRoundTrip | src/mqtt/ha_mqtt_helpers.c:281-292 | parsing a relay's printed topic gives back that relay |
| HaTask.Thread.EventPass | src/mqtt/ha_task.c:130-251 | variables, channel and messages after one pass |
| HaTask.Thread.ReportDevices | src/mqtt/ha_task.c:150-172 | one status per device of the kind whose bit differs, in table order |
| HaTask.Thread.ApplyReceived | src/mqtt/ha_task.c:177-207 | a relay command sets its bit and is published, anything else changes nothing |
| HaTask.SetRelayBits | src/mqtt/ha_task.c:196-201 | a command changes its relay's bit and no other of the eight |
| HaTask.ComplementDiffers | src/mqtt/ha_task.c:142-145 | the complement differs in every device bit |
| HaTask.RelayCommandsExactly | src/mqtt/ha_task.c:177-207 | exactly which messages command a relay, and what they say |
| Reports.ReportIsExact | src/mqtt/ha_task.c:147-174 | exactly one message per changed device, none for the others |
| Reports.QuietPassReportsChanges | src/mqtt/ha_task.c:139-246 | the same for a whole pass without a refresh |
| Reports.PassTracks | src/mqtt/ha_task.c:139-246 | a pass brings the last status of every device up to date |
| Reports.SnapshotIsRead | src/mqtt/ha_task.c:139-214 | in every run the thread's variables are what the inputs channel and the relay channel said when last read |
| Reports.LastStatusIsRight | src/mqtt/ha_task.c:93-254 | in every run, across reconnects and races, the last status of an input is what the inputs channel last said, that of a relay what its channel last said |
| Reports.FirstPassSendsAll | src/mqtt/ha_task.c:139-246 | the first pass sends all six statuses in table order |
| Reports.AllSentAs | src/mqtt/ha_task.c:108-246 | everything handed over is a status at QoS 1 or a retained announcement at QoS 1 |
| Reports.StatusNeverExpires | src/mqtt/ha_task.c:142-145 | with passes at most 100 s apart, a status is at most 500 s old and the next follows within the announced 600 s |
| Reports.RefreshesAreSpaced | src/mqtt/ha_task.c:142-145 | two statuses of an unchanged device are more than 500 s apart |
| Relays.LastWordDecides | src/mqtt/ha_task.c:176-213 | without a race each relay's channel bit is the last command or REST write for it |
| Relays.RaceKeepsLastWordIff | src/mqtt/ha_task.c:108-214 | after any race-free run, any unread writes and announcements and then a command: a relay holds the last word exactly when the command or a later write is for it, or the unread writes left the last word as it was |
| Relays.FailedPublishDropsCommand | src/mqtt/ha_task.c:194-214 | a command whose publication fails leaves no trace |
| TxPipe.Adapter.SendDataFromQToMqtt | src/mqtt/ha_mqtt_adapter.c:198-262 | queue, identifier counter, accepted packets and return code after one call, arrivals included |
| TxPipe.Adapter.AllocMid | src/mqtt/ha_mqtt_adapter.c:33-36 | the next identifier, skipping 0 |
| TxPipe.MidFormula | src/mqtt/ha_mqtt_adapter.c:31-36 | the k-th identifier is 1 + (k mod 65535) |
| TxPipe.MidsCollideOnlyAfterAll | src/mqtt/ha_mqtt_adapter.c:31-36 | identifiers are never 0 and repeat only a multiple of 65535 apart |
| TxPipe.NothingLostOrRepeated | src/mqtt/ha_mqtt_adapter.c:198-262 | under any interleaving: enqueued usable messages are the published ones followed by the waiting ones, and the queue keeps its bound |
| TxPipe.PublishedMidsValid | src/mqtt/ha_mqtt_adapter.c:233-239 | a packet carries an identifier other than 0 exactly at QoS 1 or 2 |
| TxPipe.CallIsSteps | src/mqtt/ha_mqtt_adapter.c:198-262 | what a call computes, arrivals, identifiers and return code included, is the run of steps peek, puts, publish, pop |
| Receive.ReadPayload | src/mqtt/ha_mqtt_callback.c:100-127 | the first min(len, 699) bytes and a terminator are stored, the rest is drained, for any read sizes |
| Receive.Drain | src/mqtt/ha_mqtt_callback.c:116-124 | the excess is consumed unless the transport fails |
| Receive.OnPublish | src/mqtt/ha_mqtt_callback.c:83-135 | one message with the cut topic and payload is queued if there is room |
| Receive.ShortTextArrives | src/mqtt/ha_mqtt_callback.c:92-114 | text that fits arrives unchanged |
| Receive.LongTextIsCut | src/mqtt/ha_mqtt_callback.c:92-114 | longer text is cut to a prefix, and ends at its first NUL |
| Receive.NothingDroppedIff | src/mqtt/ha_mqtt_callback.c:130-135 | all publications are taken in order exactly while the taker is never more than sixteen behind |
| Receive.ArrivalsAreAccounted | src/mqtt/ha_mqtt_callback.c:130-135 | every publication is taken, waiting or dropped, once |
| Link.LinkStatus.Handle | src/mqtt/ha_mqtt_callback.c:31-72 | record and channel after a connect answer or a disconnection, and after the connection loop's own message |
| Link.EnabledFromFirstPublication | src/mqtt/ha_mqtt_callback.c:23-40 | the channel says enabled exactly from the first publication on |
| Link.ConnectedIffLastPublished | src/mqtt/ha_mqtt_callback.c:32-66 | the channel says connected exactly when the last message it took was of a successful connect answer |
| Link.HandlerKnows | src/mqtt/ha_mqtt_callback.c:32-66 | the handler's record follows every answer and disconnection, published or not |
| Link.FallsBackIffNoEarlyLook | src/io/io.c:84-98 | over any connection history the fall-back works exactly when no tick looked at the status before the first publication |
| Io.IoThread.DoTick | src/io/io.c:76-106 | remembered state, pins and status after one tick |
| Io.PinsShowWanted | src/io/io.c:77-106 | after a tick the pins show what it wants, though unchanged states are not rewritten |
| Io.TickOutcome | src/io/io.c:76-106 | what every tick leaves on the pins, from the channel contents, statuses and settings read alone |
| Io.ConnectedFollowsChannel | src/io/io.c:88-104 | while the last status says connected the three pins are the three channel bits |
| Io.DefaultStateAppliedIff | src/io/io.c:79-98 | the default state is applied exactly while no status with enabled = false has been read |
| Bridge.MovesKeep | src/mqtt/ha_task.c:93-254 | under any interleaving of both threads, deliveries and breaks the queue has received a prefix of what was handed over, and only sent packets arrive |
| Bridge.UnbrokenCarriesAll | src/mqtt/ha_mqtt_adapter.c:248-257 | while the connection holds, the packets arrived or under way grow by exactly those sent |
| Bridge.HomeAssistantIsRightIff | src/mqtt/ha_mqtt_adapter.c:255-257 | with any breaks: once all is sent, an object is shown as in the last pass exactly when its last arrived status equals its last sent one |
| Bridge.HomeAssistantShowsTheSnapshot | src/mqtt/ha_mqtt_adapter.c:198-262 | without a break: once all has arrived, every object is shown as its channel said when last read |
| Bridge.HomeAssistantRecovers | src/mqtt/ha_task.c:139-146 | after any losses: once no break follows and a pass comes more than 500 s later, every object is shown right again |
| Bridge.CommandReachesPins | src/mqtt/ha_task.c:176-213 | a command on a relay's topic sets that relay's pin and leaves the others at their last word, unless what the relay thread has read calls for the default state |
| Bridge.LastArrivedCommandDecides | src/mqtt/ha_task.c:176-213 | with the receive queue in between and REST writes that do not race: once the thread has caught up, each relay is as the last command not yet taken at the last write said, else as that write, else off |

## Left out

- Kernel, sockets, TLS, DNS, the MQTT library, LittleFS and the settings store: abstract calls with stated outcomes.
- REST handlers other than their calls into the modelled code, the connection loop, diagnostics, display and board files: plumbing and configuration.
- Acknowledgements of incoming publications: duplicates of QoS 2 messages are not remembered, so no exactly-once claim is made.
- The full discovery JSON and its returned length: only the topics, the template and the command line are modelled.
- Bridge: a second address event also creates the MQTT and Home Assistant threads again over the running ones, which the kernel does not define; one start is modelled.
- Bridge.HomeAssistantRecovers: Home Assistant's own start and its expiry of old states.
- Bridge: a pass is recorded with everything it will read, and the real moments of the reads inside it are not distinguished.
- HaTask.SetRelay: relay numbers outside 1 to 8 have no bit in the mask; in the source a shift by such an amount is undefined for some of them, and only relays 1 to 3 are subscribed.
- HaTask.Thread.EventPass: the sequence counters of the channel messages, which nothing reads.
- Users.AddedStaysAccepted: runs that contain an initialisation whose load fails; what that one leaves is stated exactly by InitialisationKeepsIff.
- Users.UserTable.CheckUserCredentials: a failing hash library, which the source ignores here; for adding a user it is modelled.
- Authentication.Authenticator.Authenticate: the clock is read once per call.
- FileTree.FileSystem.CalcDirSize: subdirectory paths of 260 characters or more; SubpathGrowsIff says which texts the source passes on, but not what the file system finds under a cut one.
- FileTree.FileSystem.AddEntries: the same paths.
- Upload.Uploader.Upload: path text is a key as it stands, without the file system's own normalisation; the wording of error replies is reduced to their reason.
- Upload.UploadHoldsPrefix: needs removals at offset zero to succeed, and no piece at an offset that equals the unset size while the target is missing; LatePieceIsSafeIff and FirstPieceIsSafeIff say when single pieces need neither.
- Reports.StatusNeverExpires: the time of a status is that of its pass, not of the moment a full queue lets it in.
