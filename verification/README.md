# Verified models of the RustDesk client's trickiest logic

A Dafny 4.11 project that models parts of the remote-desktop client under
`client/` whose correctness depends on more than one function, and proves what
they guarantee for all inputs and all runs. `dafny verify dfyconfig.toml`
checks everything.

Where the code changes state step by step (the audio buffer, the login
handler, the clipboard, the throttled timer, the punch and relay loops, the
retry recursion over the TLS cache, the list of local peers), the model is a
class or a method with the same branches, proved equal to a function of its
inputs and old state. The results below are lemmas about those functions, most
of them over arbitrary sequences of events.

| file | subject |
|---|---|
| `Basics.dfy`, `Text.dfy`, `Utf8.dfy`, `Base64Url.dfy`, `Base64Parts.dfy` | options and bytes; `replace`, `split`, `trim`; UTF-8; unpadded base64url (section 5 of RFC 4648), and what parts of an encoding spell |
| `LicenceJson.dfy`, `LicenceReader.dfy`, `LicenceFile.dfy`, `LicenceRoundTrip.dfy`, `LicenceExact.dfy`, `LicenceLimits.dfy`, `PlainForm.dfy` | licences carried by the file name of the executable, with JSON string escapes as in section 7 of RFC 8259 |
| `AudioModel.dfy`, `AudioRuns.dfy`, `AudioBuffer.dfy` | the audio jitter buffer: ring, occupancy histogram, shrink, playback callback |
| `LoginSource.dfy` | where the login password comes from and which one is remembered |
| `ClipboardCodec.dfy`, `ClipboardSync.dfy` | clipboard data on the wire, and two machines that exchange it |
| `Rebrand.dfy` | replacing the product name in translated texts |
| `Throttle.dfy`, `UdpPunch.dfy`, `TlsRetry.dfy` | the throttled timer, the UDP punch schedule, the TLS retry policy |
| `DecoderHealth.dfy`, `OnlineStates.dfy`, `PortForward.dfy`, `LanPeers.dfy` | giving up decoders, the online bitmap, the port-forward relay, the local peer list |

## What the proofs found

- A licence is read back from its file name exactly when its printed name
  contains neither `--` nor `-licensed-` (`LicenceExact.RoundTripExact`): the
  parts of a name that is cut there start with shifted bits, which are not
  UTF-8, or inside a value, where no member can start, or are too short. Every
  licence of ASCII text has such a name, because `-` can only close a group of
  four base64url digits of ASCII bytes. Not every other licence has: the host
  `s`, U+FF01, `t` prints to a name that contains `--`
  (`LicenceLimits.FullwidthHostIsLost`).
- The plain form `host=...` is looked for in the lower-cased file name, and the
  file name itself is cut at the byte found there. So it is read back exactly
  when what stands before it takes as many bytes in lower case
  (`PlainForm.PlainRoundTripExact`): behind U+0130 the host is silently lost,
  behind U+1E9E the cut falls inside a character.
- The three replace passes mean what they should exactly when no text before an
  existing app name ends in `#A-P-P-N-A-M-E`; such a text completes a second
  placeholder (`Rebrand.TrapBreaksRebranding`). The code only guards against a
  whole placeholder.
- The number of clipboard messages is not bounded by the number of user
  copies: a copy made while a delivery waits to be looked at goes out twice.
  Nothing is ever echoed. How many messages may still come can be told from the
  clipboards and the pending notifications, and once the bound is just met it is
  broken exactly by a copy of something to send onto a clipboard that had nothing to send while
  notifications are pending (`ClipboardSync.CopyBreaksBoundExactly`).
- The punch loop sends at most 104 datagrams if its clock is started less than
  12 ms after the first one, and a 105th can be sent exactly when it is later.
- With more than two channels the shrink may split a frame. All drops take whole
  frames exactly when there are at most two channels, or the rate is a multiple
  of 40 and the channels times a fortieth of it are even
  (`AudioRuns.WholeFrameDrops`): always at 48000 Hz, not with four channels at
  44100 Hz.
- A shared or built-in password gets into the stored config exactly when
  passwords are remembered, it differs from the stored one, and the salt by then
  no longer gives the hash that is sent.
- A special clipboard format that does not compress is sent with its name in
  place of its data; data survive the journey exactly under
  `ClipboardCodec.Survives`.
- A local peer keeps stored addresses after responding exactly when the same id
  had responded under another user name first.

## Model

| member | source | states |
|---|---|---|
| Base64Url.DecodesExactlyEncodings | client/src/custom_server.rs:28 | unpadded base64url text decodes to some bytes exactly when it is their encoding, so stray trailing bits, padding and bad lengths are rejected |
| Base64Url.DashClosesGroup | client/src/naming.rs:6 | in an encoding of ASCII bytes `-` occurs only at positions 3 modulo 4 |
| Base64Url.LastDigitOfBrace | client/src/naming.rs:6 | an encoding of bytes ending in `}` ends in `9`, `Q` or `0` |
| Base64Parts.PartDecoded | client/src/custom_server.rs:28 | a part of an encoding that decodes spells the bits from its place on, and no more bytes than there are |
| Utf8.DecodesExactlyEncodings | client/src/clipboard.rs:722 | bytes decode to a text exactly when they are its UTF-8 encoding |
| LicenceJson.ReadEscaped | client/src/custom_server.rs:29 | the string reader undoes the string escaper for every byte string and stops at the closing quote |
| LicenceJson.NumberedEscapes | client/src/custom_server.rs:29 | any character may be written by its number, in either letter case, beyond U+FFFF as a pair |
| LicenceJson.ShortEscapes | client/src/custom_server.rs:29 | the eight short escapes stand for their characters |
| LicenceJson.ParsePrint | client/src/naming.rs:6 | the JSON printed for any licence, of any Unicode text, parses back to that licence |
| LicenceJson.ParseMembers | client/src/custom_server.rs:9-19 | members in any order and number are read, absent ones are empty |
| LicenceJson.HostAlone | client/src/custom_server.rs:9-19 | a host alone is enough |
| LicenceJson.UnknownIsSkipped | client/src/custom_server.rs:29 | members with other names change nothing |
| LicenceJson.RepeatedIsRejected | client/src/custom_server.rs:29 | no member may be repeated |
| LicenceReader.BlankAround | client/src/custom_server.rs:29 | white space around a licence does not matter |
| LicenceReader.NothingFollows | client/src/custom_server.rs:29 | nothing but white space may follow what parses as a licence |
| LicenceReader.LicenceIsLonger | client/src/custom_server.rs:29 | whatever parses as a licence is at least ten bytes longer than each non-empty value escaped, so the printed escapes are the shortest |
| LicenceReader.ValuesFit | client/src/custom_server.rs:29 | whatever parses as a licence is at least as long as all its values escaped together |
| LicenceReader.PrintLength | client/src/naming.rs:6 | a licence prints to forty bytes and its escaped values |
| LicenceReader.LicenceIsUtf8 | client/src/custom_server.rs:29 | whatever parses as a licence is UTF-8 |
| LicenceReader.InsideIsNoLicence | client/src/custom_server.rs:29 | what starts inside a printed value and runs into the next member parses, if at all, as the empty licence |
| LicenceFile.HostParts | client/src/custom_server.rs:60-87 | the loop over the comma-separated parts computes the fold in which later parts override earlier ones |
| LicenceFile.FirstOf | client/src/custom_server.rs:99-103 | the inner loop returns the first text that is a licence |
| LicenceFile.FirstTextWins | client/src/custom_server.rs:99-103 | the texts are tried in order, trimmed, and the first licence counts |
| LicenceFile.FirstPieceWins | client/src/custom_server.rs:94-106 | so are the pieces |
| LicenceFile.OnePiece | client/src/custom_server.rs:95-104 | a piece is tried as a whole and then by what stands before and behind its parentheses |
| LicenceFile.ConfigStringExactly | client/src/custom_server.rs:21-37 | a text is read as a licence exactly when it is the reversed encoding of bytes that parse to it, or that do not parse and carry a valid signature of bytes that do |
| LicenceFile.SignedIsRead | client/src/custom_server.rs:32-33 | a validly signed licence is read |
| LicenceFile.ParseFileName | client/src/custom_server.rs:39-108 | the whole parser, with its loops, early returns and byte offsets, computes `FromFileName` |
| LicenceRoundTrip.NameDecodes | client/src/custom_server.rs:21-31 | reversing, decoding and parsing a printed name gives the licence, for every licence |
| LicenceRoundTrip.PrintedLooks | client/src/naming.rs:5-8 | a printed name starts with one of three digits, ends in `ye` and has only base64url digits |
| LicenceRoundTrip.AsciiIsSafe | client/src/naming.rs:5-8 | the name of an ASCII licence contains neither `--` nor `-licensed-` |
| LicenceRoundTrip.SeparatorsUnified | client/src/custom_server.rs:89-92 | the three rewriting passes turn each form of the separator into `--` and leave alone every stem that, with a dash behind it, contains no separator |
| LicenceRoundTrip.NamePieceFound | client/src/custom_server.rs:94-104 | the piece with the name yields the licence, with or without a rename suffix |
| LicenceRoundTrip.ProductIsStem | client/src/custom_server.rs:21-37 | the piece `rustdesk`, though valid base64url, is no licence, so names may start with it |
| LicenceRoundTrip.ExtensionStripped | client/src/custom_server.rs:40-46 | no, one or two extensions in any letter case are removed from a name that does not itself end in one |
| LicenceRoundTrip.SafeNameRoundTrip | client/src/custom_server.rs:89-105 | every licence whose name is safe is read back, behind any stem in which nothing is cut or read and any separator, before any rename suffix and further parts, with any extension |
| LicenceExact.PartIsNoLicence | client/src/custom_server.rs:21-31 | no proper part of an encoded licence, cut out at dashes, decodes to bytes that parse to that licence |
| LicenceExact.PiecesOfName | client/src/custom_server.rs:90-94 | the pieces that the parser tries are parts of the name, ended by a dash or its end |
| LicenceExact.SignedIsLonger | client/src/custom_server.rs:32-36 | a signed licence is at least 24 bytes longer than the printed one, however it is written |
| LicenceExact.RoundTripExact | client/src/custom_server.rs:39-108 | every licence is read back from its file name, with or without a rename suffix that does not hold it itself, exactly when its name contains neither separator |
| LicenceRoundTrip.AsciiLicenceRoundTrip | client/src/custom_server.rs:185-217 | the same for every ASCII licence |
| LicenceLimits.FullwidthHostIsLost | client/src/custom_server.rs:89-107 | a concrete licence outside ASCII whose file name is not parsed, whatever the stem |
| PlainForm.PlainRoundTrip | client/src/custom_server.rs:40-87 | parts with comma-free values, host first, in any order and letter case and closed by commas are read back, whatever follows the last comma, behind every stem that keeps its number of bytes in lower case |
| PlainForm.OpenRoundTrip | client/src/custom_server.rs:40-87 | the same when the last part has no comma behind it, unless it ends like the extension |
| PlainForm.PlainRoundTripExact | client/src/custom_server.rs:59-61 | for a non-empty host that is said once, behind a stem that does not end in a comma, they are read back exactly when the stem keeps its number of bytes in lower case |
| PlainForm.OpenRoundTripExact | client/src/custom_server.rs:59-61 | the same when the last part has no comma behind it |
| PlainForm.AsciiKeepsBytes | client/src/custom_server.rs:59-61 | every ASCII stem does |
| PlainForm.DottedStemLosesHost | client/src/custom_server.rs:59-61 | behind U+0130, which grows by a byte, the host is lost and the empty licence returned |
| PlainForm.SharpStemFails | client/src/custom_server.rs:59-61 | behind U+1E9E, which shrinks by a byte, the cut falls inside a character |
| AudioBuffers.HeapRb.PushSliceOverwrite | client/src/client.rs:1300 | pushing onto the circular array keeps the last samples that fit of old and new together |
| AudioBuffers.HeapRb.PopSlice | client/src/client.rs:1526 | popping returns and removes the oldest samples in order |
| AudioBuffers.AudioBuffer.Resize | client/src/client.rs:1221-1229 | resizing replaces buffer and rate exactly when the capacity changes |
| AudioBuffers.AudioBuffer.AppendPcm2 | client/src/client.rs:1296-1310 | appending keeps the last samples that fit and returns the smaller of capacity and old plus new |
| AudioBuffers.AudioBuffer.ScanHistogram | client/src/client.rs:1254-1278 | the in-place loop finds the zero run and the peak of the original histogram and leaves it blank |
| AudioBuffers.AudioBuffer.Measure | client/src/client.rs:1235-1283 | the first half of the shrink pass: counting, the twelve seconds, the choice of the mark |
| AudioBuffers.AudioBuffer.Shrink | client/src/client.rs:1283-1290 | the second half drops the computed number of samples if three times as many are there |
| AudioBuffers.AudioBuffer.AppendPcm | client/src/client.rs:1315-1318 | append, measurement and shrink in sequence |
| AudioBuffers.AudioBuffer.Play | client/src/client.rs:1495-1528 | the callback plays the oldest samples, as many as it needs or there are |
| AudioModel.Peak | client/src/client.rs:1256-1269 | the first tallest of the buckets from 1 on, 0 if those are empty |
| AudioModel.LeadingZeros | client/src/client.rs:1260-1262 | the length of the run of empty buckets at the start |
| AudioRuns.PeakIsFirstMaximum | client/src/client.rs:1256-1269 | with an empty first bucket the peak is the first index of the histogram's maximum |
| AudioRuns.NearlyEmptyMeansNoDrop | client/src/client.rs:1270-1287 | if the first bucket was not empty the drop is 0 |
| AudioRuns.ResizeOk | client/src/client.rs:1207-1229 | both branches keep capacity at three times the per-second rate |
| AudioRuns.MeasureCounts | client/src/client.rs:1235-1279 | all counters are 0 after a completed window, and in between they add up to the number of measurements |
| AudioRuns.DropSizeRounds | client/src/client.rs:1286 | the drop is the one even number within a sample of the mark's share of the capacity |
| AudioRuns.ShrinkExactly | client/src/client.rs:1283-1290 | a shrink takes exactly that even number of the oldest samples if more than three times as many are there, and otherwise changes nothing |
| AudioRuns.BucketMeans | client/src/client.rs:1237-1240 | a bucket is a tenth of a second, the last one holds all deeper occupancies |
| AudioRuns.MeasureExactly | client/src/client.rs:1235-1279 | the window closes twelve seconds after the last one, and only then a mark is read and the counters are cleared |
| AudioRuns.MarkExactly | client/src/client.rs:1270-1282 | the mark is the peak held down to four times two thirds of the empty run, none below six |
| AudioRuns.ResizeExactly | client/src/client.rs:1221-1229 | the same capacity changes nothing, another one drops all that is there and sets the rate |
| AudioRuns.PlayExactly | client/src/client.rs:1520-1528 | the callback takes the oldest samples, all it needs or all there are |
| AudioRuns.SteadyBufferShrinks | client/src/client.rs:1231-1291 | above 20 samples per second a buffer in one bucket from 6 to 29 for a whole window does lose samples at its close, that many |
| AudioRuns.RunShrinksExactly | client/src/client.rs:1283-1290 | in every run each shrink does exactly that |
| AudioRuns.RunShrinksSteadyBuffer | client/src/client.rs:1231-1291 | in every run such a buffer loses samples if the callback does not come in between |
| AudioRuns.DropBounded | client/src/client.rs:1283-1290 | a drop is even, under a third of the buffer, and three times the drop less one is at most twice any recorded occupancy |
| AudioRuns.RunConservesSamples | client/src/client.rs:1220-1318 | in every run pushed = played + dropped + buffered, and what is heard is the pushed samples with fate `Played`, in order |
| AudioRuns.RunDropsSafely | client/src/client.rs:1231-1291 | in every run a drop obeys those bounds for the samples its window recorded at the present rate, every sample of the window was at least 200 ms deep at its own rate, and its peak is 6 or higher |
| AudioRuns.StereoStaysInPhase | client/src/client.rs:1296-1310 | with two channels, in every run, both samples of a frame share their fate |
| AudioRuns.WholeFrameDrops | client/src/client.rs:1286 | for any rate and number of channels, drops are whole frames for every mark, or for every mark from 6 to 29, exactly when there are at most two channels or the rate is a multiple of 40 and half a bucket is worth an even number of samples |
| AudioRuns.MarkGiven | client/src/client.rs:1254-1282 | every mark from 6 to 29 is one that some histogram gives |
| AudioRuns.UsualRates | client/src/client.rs:1286 | whole frames at 48000 Hz for any number of channels; at 44100 Hz and four channels a drop leaves two samples of a frame |
| LoginSource.LoginConfigHandler.Initialize | client/src/client.rs:1841-1853 | the stored password decides `remember`; a token brings password and tag |
| LoginSource.LoginConfigHandler.HandleHash | client/src/client.rs:3486-3558 | the order of precedence of the password sources, and the tag of each |
| LoginSource.LoginConfigHandler.HandleLoginError | client/src/client.rs:3400-3407 | a rejected password is forgotten, its tag is not |
| LoginSource.LoginConfigHandler.HandleLoginFromUi | client/src/client.rs:3663-3681 | a typed password is hashed and tagged, an empty one falls back |
| LoginSource.LoginConfigHandler.HandlePeerInfo | client/src/client.rs:2552-2577 | which password ends up in the stored config |
| LoginSource.SourceAgrees | client/src/client.rs:1697-1726 | over every history of sessions with a peer, with any salts and with tokens that one session hands to another, the tag of a password that is there agrees with its origin |
| LoginSource.OthersWrittenExactlyWhen | client/src/client.rs:2558-2577 | peer info stores a shared or built-in password exactly when it is remembered, differs from the stored one, and its salt gives another hash by now |
| LoginSource.OthersNeverWritten | client/src/client.rs:2558-2577 | over every history of sessions that hand each other tokens and share the stored config, with one salt, no shared or built-in password is newly stored |
| LoginSource.FirstCandidateIsSent | client/src/client.rs:3508-3558 | when the peer asks, the first present password of shared card, last one, preset, peer config, personal book and built-in default is sent with its own tag, and the card is used up |
| LoginSource.RejectedIsNotSentAgain | client/src/client.rs:3400-3407 | after a rejection the first of card, preset, config, book and built-in default is sent, and nothing if all are absent, whatever was sent before |
| LoginSource.LoginErrorExactly | client/src/client.rs:3400-3407 | a rejection forgets the password and nothing else; any other login error changes nothing |
| LoginSource.EmptyEntry | client/src/client.rs:3663-3681 | an empty entry falls back to the config after a rejection and changes nothing while a password is there |
| LoginSource.TokenIsSent | client/src/client.rs:2817-2827 | a token is handed out exactly if there is a password, and the next session sends it with its tag, unless it has a card |
| LoginSource.StoredIsSent | client/src/client.rs:1841-1853 | without token and card the stored password is sent, and stays remembered |
| LoginSource.StoredByOrigin | client/src/client.rs:2552-2577 | what is stored, by where the password came from: a personal-book password always, the rest if remembered, except that a shared or built-in one whose hash still fits leaves the stored one alone |
| LoginSource.TypedPasswordReturns | client/src/client.rs:1841-1853 | a typed password is sent again in the next session exactly when it was to be remembered |
| LoginSource.SecondSaltWritesShared | client/src/client.rs:2558-2567 | with a second salt a run exists that stores one |
| ClipboardCodec.RoundTripExact | client/src/clipboard.rs:613-741 | clipboard data come back as sent exactly when compression is undone, image sizes fit 32 bits, and an incompressible special format equals its own name |
| ClipboardCodec.IncompressibleSpecialIsLost | client/src/clipboard.rs:673-688 | otherwise the name arrives in place of the data |
| ClipboardCodec.NeverGrows | client/src/clipboard.rs:613-688 | texts, images and compressible special formats are compressed exactly if that is shorter |
| ClipboardSync.ClipboardContext.GetFormatsFilter | client/src/clipboard.rs:379-408 | the filter, with its early return at an owner mark |
| ClipboardSync.ClipboardContext.CheckClipboard | client/src/clipboard.rs:54-98 | which message a check makes, and the cached last message |
| ClipboardSync.ClipboardContext.UpdateClipboard | client/src/clipboard.rs:230-269 | a delivery puts the decoded data and the owner mark on the clipboard, or nothing |
| ClipboardSync.MessageRoundTrip | client/src/clipboard.rs:704-752 | a whole message arrives as its content exactly when each of its data survives |
| ClipboardSync.KeptExactly | client/src/clipboard.rs:399-408 | the filter leaves out exactly owner marks and empty texts and keeps the order |
| ClipboardSync.ReadExactly | client/src/clipboard.rs:360-408 | what is read off a clipboard: nothing behind either mark unless forced, nothing with a file url, and otherwise all but marks and empty texts, in order |
| ClipboardSync.CopyArrivesWhole | client/src/clipboard.rs:54-98 | from any state a copy that is looked at and delivered arrives with all its data in order and the owner mark behind them, if all is worth sending and survives |
| ClipboardSync.ClipboardHoldsACopy | client/src/clipboard.rs:54-98 | in every run a clipboard holds an own copy unchanged, or a copy of the other user with the owner mark, complete if its data survive |
| ClipboardSync.NothingIsEchoed | client/src/clipboard.rs:379-408 | in every run what a machine sends is a copy of its own user, and no message carries the owner mark |
| ClipboardSync.MayExceedExactly | client/src/clipboard.rs:54-98 | from any state, more messages than copies may go out without a further copy exactly when those sent and those that checks of the pending notifications would send now are more |
| ClipboardSync.CopyBreaksBoundExactly | client/src/clipboard.rs:842-849 | with the bound just met, a copy of something to send breaks it exactly when notifications are pending on a clipboard that had nothing to send |
| ClipboardSync.CarefulUsersSendOnce | client/src/clipboard.rs:54-98 | if users make no such copy, messages are never more than user copies |
| ClipboardSync.PatientUsersSendOnce | client/src/clipboard.rs:54-98 | if users copy only when no arrival is pending, messages are at most user copies |
| ClipboardSync.CopyGoesOutForEach | client/src/clipboard.rs:842-849 | a copy made while notifications are pending is sent once for each of them and once for itself |
| ClipboardSync.OvertakenArrivalSendsTwice | client/src/clipboard.rs:842-849 | three messages for two copies |
| Text.ReplaceIsSplitJoin | client/src/lang.rs:242-244 | replacing is splitting and rejoining with the replacement |
| Rebrand.Rebranding | client/src/lang.rs:220-253 | the closure computes `Rebranded`, pass after pass |
| Rebrand.ThreePassesExact | client/src/lang.rs:240-248 | for an app name that contains the product name and a text without the placeholder, the three passes rename only between existing app names exactly when the text sets no trap |
| Rebrand.TrapBreaksRebranding | client/src/lang.rs:240-248 | a concrete text with the trap comes out wrong, though it contains no placeholder |
| Rebrand.HashFreeTextsAreRebranded | client/src/lang.rs:225-251 | hence for every text without `#` |
| Rebrand.PlainNamesReplaceProduct | client/src/lang.rs:225-232 | an app name without the product name: the text split at the product name and rejoined with the app name |
| Rebrand.LeftAlone | client/src/lang.rs:225-249 | the product itself, two kinds of keys, and texts with the placeholder are left alone |
| Rebrand.ValueGoesFirst | client/src/lang.rs:220-224 | a value for `{}` is put in at every place, before anything else |
| Throttle.ThrottledInterval.PollTick | client/src/common.rs:2058-2073 | a tick passes exactly if the interval is ready and the time has come, and then sets the next time |
| Throttle.ThrottledInterval.PollAll | client/src/common.rs:2053-2056 | polling again and again passes the ticks of `Ticks` |
| Throttle.TicksBounded | client/src/common.rs:2043-2074 | any window of length L holds at most L / min_interval + 1 ticks, for every sequence of polls |
| Throttle.NoTickWithheld | client/src/common.rs:2058-2073 | once the first tick is due, any window as long as the interval that ends at a ready poll holds a tick |
| UdpPunch.PunchUdp | client/src/common.rs:2502-2551 | the loop computes the run of its steps |
| UdpPunch.IntervalGrows | client/src/common.rs:2529-2532 | the interval never shrinks, stays in 20 to 200 ms and is 200 exactly from the sixth resend on |
| UdpPunch.ResendExactly | client/src/common.rs:2516-2535 | a sleep within the limit makes a resend exactly if the interval has passed since the last one, and the next interval counts from after it |
| UdpPunch.AtMost104Datagrams | client/src/common.rs:2506-2551 | whatever wakes the loop and when, no resend happens past its earliest possible time, so at most 104 datagrams are sent |
| UdpPunch.BoundIsMet | client/src/common.rs:2516-2535 | with prompt wake-ups every resend that may happen does |
| UdpPunch.ReachableExactly | client/src/common.rs:2506-2551 | some run sends more than n datagrams exactly when the earliest time of the n-th resend is within the limit |
| UdpPunch.LimitIsExact | client/src/common.rs:2511-2521 | some run sends 104 datagrams, and one sends more exactly if the clock starts at least 12 ms late |
| UdpPunch.FirstVerdictDecides | client/src/common.rs:2516-2549 | the first wake-up beyond the limit, with an answer or a failure decides the outcome, and nothing is sent from it on |
| TlsRetry.HttpClient.PostRequest | client/src/common.rs:1409-1491 | the recursion makes the attempts of the policy and caches what worked |
| TlsRetry.HttpClient.GetHttpResponse | client/src/common.rs:1499-1600 | the same policy, unless method or header is refused first |
| TlsRetry.AttemptsClimbLadder | client/src/common.rs:1418-1490 | the attempts are the configurations compatible with what is known, safest first, up to the first that does not fail in the request |
| TlsRetry.AttemptsBounded | client/src/common.rs:1418-1490 | at most four, two or one attempts, no configuration twice |
| TlsRetry.NextRequestTriesOnce | client/src/common.rs:1329-1343 | after an answer the next request makes one attempt, with the configuration that was answered |
| TlsRetry.NeverInsecure | client/src/common.rs:1409-1491 | without insecure fallback no attempt accepts an invalid certificate |
| TlsRetry.PlainUrls | client/src/common.rs:1409-1491 | a plain url is requested once, without TLS, and not remembered |
| TlsRetry.OtherDomainsKept | client/src/common.rs:1329-1343 | what is remembered of one domain changes nothing for another |
| DecoderHealth.VideoHandler.Handle | client/src/client.rs:1594-1644 | one frame: a new format resets, a decoded frame clears the counter, a failure counts |
| DecoderHealth.HandleFrameCounts | client/src/client.rs:1613-1629 | the counter is k after k failures in a row, k + 2 if nothing else happened since the reset, and stops at its largest value |
| DecoderHealth.ThresholdMeans | client/src/client.rs:2972-2973 | the threshold is reached exactly by three failures in a row or nothing but failures since the reset |
| DecoderHealth.ResultsSinceChange | client/src/client.rs:1594-1644 | the results counted are those of the image frames behind the last reset and the last frame of another format |
| DecoderHealth.OwnHandlerOnly | client/src/client.rs:1647-1659 | a frame and a reset change the handler of their own display only, and a reset leaves nothing counted |
| DecoderHealth.RunOk | client/src/client.rs:2969-2988 | in every interleaving of video threads, which send updates after the lock is released, the list has no duplicates, one update is sent or owed for each entry, and once none is owed the last one told the whole list |
| DecoderHealth.MarkedExactlyWhen | client/src/client.rs:2972-2982 | when exactly a format with a working decoder is newly marked |
| DecoderHealth.InvalidIsMarked | client/src/client.rs:2972-2982 | the format of an unusable decoder is marked at once |
| OnlineStates.Decode | client/src/client.rs:4161-4173 | with enough bytes the loop splits the ids by their bits, in order, set ones online; with too few it fails |
| OnlineStates.IdsConserved | client/src/client.rs:4164-4172 | no id is lost or made up |
| OnlineStates.WhereExactly | client/src/client.rs:4164-4172 | a list is the ids at exactly the positions whose bit is as asked, in order |
| OnlineStates.PackedStatesDecoded | client/src/client.rs:4160-4173 | from packed states the online list is exactly the ids whose state is set, the offline list the others, in order |
| OnlineStates.FlagsOfPacked | client/src/client.rs:4165-4167 | bits packed most significant first are decoded to themselves |
| PortForward.ConnectAndLogin | client/src/port_forward.rs:134-204 | the login loop and the flush behind it compute the run of their steps |
| PortForward.RunForward | client/src/port_forward.rs:207-229 | the relay loop computes the run of its steps |
| PortForward.RelayedInOrder | client/src/port_forward.rs:134-229 | in every phase: what was read is what was handed to sends, in order, and what is held back; what arrives is the chunks whose send succeeded, in order, and everything exactly when no bytes were in a failed send; nothing goes out during login |
| PortForward.ReliableRelay | client/src/port_forward.rs:134-229 | with reliable sends the relay is lossless and in order at every step, also once closed |
| PortForward.LoginExactly | client/src/port_forward.rs:137-197 | login lasts until peer info, a fatal answer or the loss of a side; until then everything from the local socket is read and held back |
| PortForward.ForwardingExactly | client/src/port_forward.rs:199-229 | after peer info everything from both sides is read until one is gone |
| LanPeers.HandleReceivedPeers | client/src/lan.rs:313-352 | the loop computes `After`; it stores after the first response, then more than 300 ms apart, never leaves a response more than 300 ms behind the last store, and stores the final list last |
| LanPeers.HandleOne | client/src/lan.rs:324-333 | one response: remove, merge, insert in front |
| LanPeers.ListIsByRecency | client/src/lan.rs:313-352 | the distinct responders by most recent response, then the others in their original order, no peer twice |
| LanPeers.OnlineExactlyResponders | client/src/lan.rs:315-317 | exactly the responders are online |
| LanPeers.ListedAddresses | client/src/lan.rs:325-333 | which addresses a peer is listed with |

## Left out

- LicenceFile.ParseFileName: lowers character by character with a given table, which leaves out the final form of sigma (as long as the other form); a panic inside a character and an error are both no licence.
- LicenceExact.RoundTripExact: is about a name without further `--` parts, which could themselves be the licence; with them the name is still read back when it is safe (`LicenceRoundTrip.SafeNameRoundTrip`). An unsafe name may still be read as another licence, such as the empty one.
- LicenceJson.ParsePrint: the reader accepts objects whose members are strings of UTF-8; members of other types or with other bytes under unknown names, and the array form of a record, are rejected by the model where serde_json would accept them. No printed licence has any; it is by this reader that `LicenceExact.RoundTripExact` judges the parts of an unsafe name.
- LicenceRoundTrip.AsciiLicenceRoundTrip: signature verification is a parameter; where it matters, only that a signature takes 64 bytes is assumed of it.
- PlainForm.PlainRoundTripExact: a second `host=` inside the values, or a comma right before the first, can make a misplaced cut land on a host again; these forms are covered by `PlainForm.PlainRoundTrip` only.
- The name printed by `main` in client/src/naming.rs uses a prefix that the parser does not split at; no round trip is stated for it.
- AudioBuffers.AudioBuffer.Measure: the timestamp that is static in the code is a field, so a process with several audio buffers is not modelled; a rate of zero, on which the code divides by zero, is excluded.
- The callback's sleep between two looks at the buffer is an interleaving like any other; decoding, resampling and rechannelling are library work.
- LoginSource.OthersNeverWritten: SHA-256 is uninterpreted; the switch-sides branch, terminal-admin prompts and the other fields of the config are not modelled; peer info is taken to come after the peer has asked for a password.
- ClipboardSync.NothingIsEchoed: one session between two machines whose users never copy the owner mark themselves; file urls, forced reads, the message for newly connected peers and failures of the system clipboard are not modelled.
- Throttle.TicksBounded: the minimal interval is a positive number of time units; nine tenths of the period in floating point is not modelled.
- UdpPunch.AtMost104Datagrams: a sleep is taken to last at least its interval. The same schedule in `test_udp_uat` (client/src/client.rs:4210-4290) has no time limit and is not modelled.
- TlsRetry.HttpClient.PostRequest: the cache key is the domain, taken as given; whether insecure fallback is allowed does not change between two requests.
- OnlineStates.Decode: sockets and the two tries to get an answer are not modelled.
- LanPeers.HandleReceivedPeers: host name and platform are not modelled; every response is taken to say that its peer is online, as `wait_response` sends it.
- Connection setup, video codecs, privacy mode, user interface, language tables and build scripts are not modelled.

Nothing was executed; the only evidence is the verifier's.
