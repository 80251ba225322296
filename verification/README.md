# Teaf proxy and message codec: a verified model

This project models two components of the Teaf framework and proves properties of them.

* **IsgwProxy**, a client-side load balancer. It keeps a list of servers with failure statistics,
  selects the next one by a cyclic scan that skips servers with too many failures in a row, and
  refreshes the list from admin servers from time to time. Many threads share one proxy.
* **The text protocol** `name=value&name=value`, which the repository parses twice: by index in
  `IsgwProxy::parse` and `split`, and by a destructive `strtok_r` over a fixed buffer in `QModeMsg`.

## How it is organised

| file | content |
|---|---|
| Text.dfy, Decimal.dfy | maximal delimiter-free runs, joining, last-wins maps; atoi and strtoul |
| ProxyCodec.dfy | `parse` and `split` as loops, their grammar and round trips |
| AdminFallback.dfy | the loop over the admin servers |
| Selection.dfy | the cyclic scan and rotation under fixed health |
| ProxyState.dfy, IsgwProxy.dfy | the three critical sections as functions; the object with its loops |
| Recovery.dfy | how many calls pass before a server that answers is found again |
| Threads.dfy, RunSteps.dfy | T client threads as a transition system over the same functions; building concrete runs |
| SkippingRuns.dfy | when an unavailable server is avoided, with runs in which it is not |
| RefreshSpacing.dfy | how often the list can be installed |
| FailureBounds.dfy, BoundAttained.dfy | amortised bounds on failed requests over whole runs, and runs that attain them |
| SurvivorBounds.dfy, SurvivorAttained.dfy | sharper bounds when one server never fails, and runs that attain them |
| NoRepeats.dfy, NoRepeatsAttained.dfy | the exact bound for lists that name each dead address once |
| CBuffers.dfy, MessageCodec.dfy, QModeMsg.dfy | C buffers, the meaning of a message, the message object |
| FieldPlaces.dfy | where names, fields and values stand in a text, and what substring search finds |
| Agreement.dfy | when the two parsers agree |
| SentPairs.dfy | what arrives of joined pairs; when `set_body`, `is_have` and `get_result` tell what was sent |

A locked section of the proxy is one step of the transition system and every unlocked read is a step
of its own, so two threads can pass the staleness checks together. Network exchanges are arbitrary
inputs. The methods of the two objects are proved equal to functions on values and stated field by
field besides; the results over runs are about those functions, and `CallIsRun` ties the sequential
object to the interleaved system.

Assumptions: counters and times do not wrap; a thread has one call in progress; QMSG_MAX_LEN is any
positive number (it is a build option, 4096 or 8400); unsigned long has 64 bits.

## Where code and comments differ

The model follows the code.

* isgw_proxy.h:42 says unavailable servers are skipped and that one is chosen at random when all are
  unavailable. The code takes the next one in order, and because the scan never looks at the current
  position it picks an unavailable server whenever the current one is the only healthy one
  and the list has another (`SkipsUnhealthyExactly`, `PickedPastThreshold`; a run from start-up is
  `SkipsUnhealthyFails`).
* isgw_proxy.h:63 says a server is avoided for the rest of the period when its failures exceed
  max_fail_times. The code avoids the next server once its failures reach that number, and only while
  some position other than the current one is below it (`AvoidedExactly`, `PickedPastThreshold`; a
  run in which a server is avoided at exactly max_fail_times is `AvoidedAtThreshold`, one in which a
  server with any number of failures more is selected is `SkipsUnhealthyFails`).
* isgw_proxy.h:62 speaks of a refresh interval, but concurrent callers can install twice within one
  (`SpacedExactly`, `TwoThreadsInstallTwice`).
* qmode_msg.h:84 says `is_have` tells whether a field is present; it tells whether the name occurs
  anywhere in the body. For a body of joined pairs that is presence exactly when a name or value
  containing the name implies a pair called that (`SearchDecidesExactly`, `FalsePositive`).
* `get_result` reports a missing field with a number that a field can hold, and a field that is
  missing while the word occurs elsewhere with 0 (`ResultDecidesExactly`, `ResultAfterLoad`,
  `ErrorCodeAsValue`).
* `parse` and `set_body` read one text protocol and differ on some texts (`ParsersAgreeExactly`,
  `SetBodyAgreesExactly`, `ParsersDisagree`).

## Model

| member | source | states |
|---|---|---|
| IsgwProxyClass.IsgwProxy.Install | trunk/teaf(isgw)/comm/isgw_proxy.cpp:113-134 | Field by field: afterwards the rows are the given addresses in order with zero statistics, the index is 0 and the stored time is the given one. |
| IsgwProxyClass.IsgwProxy.SelectServer | trunk/teaf(isgw)/comm/isgw_proxy.cpp:138-165 | The scan loop ends, reports no server exactly on an empty list, and otherwise moves the index to the position `Pick` selects and returns its address; rows and time stay. |
| IsgwProxyClass.IsgwProxy.Record | trunk/teaf(isgw)/comm/isgw_proxy.cpp:21-42 | The statistics loop adds one to the total of every row of the address, sets its failures to 0 on success and adds one otherwise, and changes no other row, address, index or time. |
| IsgwProxyClass.IsgwProxy.GetServer | trunk/teaf(isgw)/comm/isgw_proxy.cpp:104-166 | Alone: exactly when now is more than the interval after the stored time and some admin settles the matter, the rows are new ones of the first such list, dated now, and position 1 is selected (0 if it is the only one); otherwise rows and time stay and the scan selects. No server is reported exactly on an empty list. |
| ProxyState.RefreshDecides | trunk/teaf(isgw)/comm/isgw_proxy.cpp:106-135 | The same of the value the interleaved model compares with: replaced exactly under that condition, and untouched otherwise. |
| ProxyState.SectionsKeep | trunk/teaf(isgw)/comm/isgw_proxy.cpp:22-42 | Of the values: selection keeps rows and time; recording counts the request in every row of the address and keeps everything else. |
| IsgwProxyClass.IsgwProxy.Get | trunk/teaf(isgw)/comm/isgw_proxy.cpp:8-44 | Alone, in terms of the fields: the list is replaced or kept as above, the address at the selected position is asked, its code is returned with its reply on success, every row of that address counts the request, and an empty list gives -100. |
| Selection.PickCorrect | trunk/teaf(isgw)/comm/isgw_proxy.cpp:146-163 | The pick is the first healthy position strictly after the current one in cyclic order, or the immediate successor when no other position is healthy. |
| Selection.PickUnique | trunk/teaf(isgw)/comm/isgw_proxy.cpp:146-154 | No other position satisfies that description. |
| Selection.SkipsUnhealthyExactly | trunk/teaf(isgw)/comm/isgw_proxy.cpp:147-160 | The header's promise, that unavailable servers are skipped unless all are, is kept by a pick exactly when a position other than the current one is healthy, the list is a single server, or the current server is unavailable too. A second clause says exactly when the pick is healthy. |
| SkippingRuns.SkipsUnhealthyFails | trunk/teaf(isgw)/comm/isgw_proxy.cpp:147-160 | For every threshold and every k, a run from start-up in which the promise fails: the current server has never failed and the one selected has failed max_fail_times_ + k times. |
| SkippingRuns.PickedPastThreshold | trunk/teaf(isgw)/comm/isgw_proxy.cpp:147-160 | In any state, a server with at least max_fail_times_ failures is selected exactly when no position other than the current one has fewer and the list is not a single healthy server. |
| SkippingRuns.AvoidedExactly | trunk/teaf(isgw)/comm/isgw_proxy.cpp:147-151 | The server whose turn it is gets passed over exactly when its failures have reached max_fail_times_ and some position other than the current one has fewer. |
| SkippingRuns.AvoidedAtThreshold | trunk/teaf(isgw)/comm/isgw_proxy.cpp:147-151 | A run from start-up in which the next server is passed over with exactly max_fail_times_ failures, which do not exceed it. |
| Selection.RotatesThroughHealthy | trunk/teaf(isgw)/comm/isgw_proxy.cpp:146-163 | With at least two healthy positions, repeated selection goes through the increasing list of healthy positions cyclically for ever. |
| Selection.WindowVisitsEachOnce | trunk/teaf(isgw)/comm/isgw_proxy.cpp:146-163 | Fairness: every pick is healthy and every window of as many picks as there are healthy positions visits each of them exactly once. |
| Selection.SoleHealthyAlternates | trunk/teaf(isgw)/comm/isgw_proxy.cpp:146-163 | With one healthy position among several, it follows every other pick, and it is followed by its own successor, so any two consecutive picks include it. |
| Selection.NoneHealthyVisitsAll | trunk/teaf(isgw)/comm/isgw_proxy.cpp:156-160 | With nobody healthy, any n consecutive picks visit each of the n positions exactly once. |
| Recovery.RecoversWithinOneRound | trunk/teaf(isgw)/comm/isgw_proxy.cpp:22-42 | When every server has reached the threshold and one address answers whenever asked, one of the next n calls succeeds and that success zeroes its failure count. |
| Recovery.RecoversFromAnywhere | trunk/teaf(isgw)/comm/isgw_proxy.cpp:22-42 | From any state: if one address answers whenever asked, a call succeeds within n calls plus the failures all positions together are short of the threshold plus the most that one of them is short. |
| Threads.RunKeepsInv | trunk/teaf(isgw)/comm/isgw_proxy.cpp:104-165 | Every interleaving keeps the index in range (0 on an empty list), and a nonempty list never becomes empty, even with double installation. |
| Threads.NeverStuck | trunk/teaf(isgw)/comm/isgw_proxy.cpp:8-44 | In every reachable state each thread can take its next step; in particular a selection never meets an index out of range. |
| Threads.StatsAreHistory | trunk/teaf(isgw)/comm/isgw_proxy.cpp:22-42 | In every interleaving each row's total is the number of recordings of its address since the last installation, and its fail the length of their trailing run of failures; the listed addresses are those of that installation. |
| Threads.SameAddressSameStats | trunk/teaf(isgw)/comm/isgw_proxy.cpp:23-40 | Rows with the same address are equal, and fail never exceeds total, in every reachable state. |
| Threads.RefreshTimes | trunk/teaf(isgw)/comm/isgw_proxy.cpp:122-132 | In every run from start-up the stored time is that of the last installation event (0 if none), and right after such an event the index is 0 and every row is new. |
| Threads.TestsDecide | trunk/teaf(isgw)/comm/isgw_proxy.cpp:106-111 | In every run both unlocked tests let a thread go on, to the fetch and to the installation, exactly when its time is more than the interval after the last installation event. |
| Threads.FetchDecides | trunk/teaf(isgw)/comm/isgw_proxy.cpp:109-111 | After the fetch a thread holds the list of the first admin that settles the matter, or goes on to select when none does. |
| Threads.StepOrigin | trunk/teaf(isgw)/comm/isgw_proxy.cpp:8-44 | In every run an installation carries the time of its thread's last check and the list its last fetch found, and a recording the address of its thread's last selection, whatever other threads did in between. |
| Threads.CallIsRun | trunk/teaf(isgw)/comm/isgw_proxy.cpp:8-44 | The sequential object and the interleaved system agree: an undisturbed call is a run of its thread with the same effect on the shared state, which selects the address the call asks and records success exactly when the call returns 0, or ends without a server and with that code. |
| RefreshSpacing.SpacedExactly | trunk/teaf(isgw)/comm/isgw_proxy.cpp:106-135 | The times of successive installation events are more than an interval apart in all runs if and only if there is at most one thread; the unlocked double check does not ensure it for two. |
| RefreshSpacing.TwoThreadsInstallTwice | trunk/teaf(isgw)/comm/isgw_proxy.cpp:107-134 | A concrete run in which two threads pass both checks and install at the same moment. |
| RefreshSpacing.ListIsReplaced | trunk/teaf(isgw)/comm/isgw_proxy.cpp:107-134 | A run from start-up in which a list in use is replaced by another, just more than an interval later. |
| FailureBounds.Conservation | trunk/teaf(isgw)/comm/isgw_proxy.cpp:12-42 | Selections plus requests in flight at the start equal recordings plus requests in flight at the end, for any set of addresses. |
| FailureBounds.StreakBound | trunk/teaf(isgw)/comm/isgw_proxy.cpp:22-42 | While two positions never fail, the current run of failures of an address plus its requests in flight never exceeds max_fail_times_ + T - 1. |
| FailureBounds.AddressBound | trunk/teaf(isgw)/comm/isgw_proxy.cpp:22-42 | With arbitrary outcomes for an address, each of its successes pays for at most max_fail_times_ + T - 1 of its failures, those in flight included. |
| FailureBounds.FleetBound | trunk/teaf(isgw)/comm/isgw_proxy.cpp:22-42 | The same bound summed over any set of D addresses: failures <= (max_fail_times_ + T - 1) * (D + successes). |
| FailureBounds.DeadAddressesBound | trunk/teaf(isgw)/comm/isgw_proxy.cpp:146-164 | From a fresh list, T threads select D always-failing addresses at most D * (max_fail_times_ + T - 1) times while two positions stay up. |
| FailureBounds.DeadAddressesAfterInstall | trunk/teaf(isgw)/comm/isgw_proxy.cpp:107-164 | That bound for any run from start-up, counted from its last installation, whatever was in flight before it. |
| BoundAttained.DeadAddressesBoundAttained | trunk/teaf(isgw)/comm/isgw_proxy.cpp:107-164 | That bound is exact for lists that may repeat an address: for every threshold, number of threads and number of dead addresses some run from start-up reaches it, on a list that names each dead address max_fail_times_ + T - 1 times. |
| NoRepeats.ShareOfOne | trunk/teaf(isgw)/comm/isgw_proxy.cpp:146-164 | While n dead addresses, listed once each, are below the threshold, each of them has been selected at most max_fail_times_ + (T - 1)/n times, since they keep pace and share the threads. |
| NoRepeats.NoRepeatsBound | trunk/teaf(isgw)/comm/isgw_proxy.cpp:146-164 | From a fresh list that names each of D dead addresses once, with two positions that stay up, T threads select them at most D * max_fail_times_ + (T - 1) + (T - 1)/2 + ... + (T - 1)/D times, each share rounded down. |
| NoRepeats.NoRepeatsAfterInstall | trunk/teaf(isgw)/comm/isgw_proxy.cpp:107-164 | That bound for any run from start-up, counted from its last installation, whatever was in flight before it. |
| NoRepeatsAttained.NoRepeatsBoundAttained | trunk/teaf(isgw)/comm/isgw_proxy.cpp:107-164 | It is exact: some run from start-up reaches it, for every threshold, number of threads and number of dead addresses. |
| FailureBounds.DegradedFollowSurvivor | trunk/teaf(isgw)/comm/isgw_proxy.cpp:147-160 | A server past the threshold is picked only when the survivor is current, so such picks number at most the survivor's picks, plus one if it was current at the start. |
| FailureBounds.SoleSurvivorBound | trunk/teaf(isgw)/comm/isgw_proxy.cpp:31-39 | With one position that never fails and n >= 2, T threads select D dead addresses at most D * (max_fail_times_ + T - 1) times, plus the survivor's selections, plus one. |
| FailureBounds.SequentialSoleSurvivor | trunk/teaf(isgw)/comm/isgw_proxy.cpp:31-39 | For one thread between calls, counted from any installation: F <= max_fail_times_ * D + S + 1. |
| FailureBounds.SoleSurvivorAfterInstall | trunk/teaf(isgw)/comm/isgw_proxy.cpp:107-164 | The same for every run of one thread from start-up, counted from its last installation. |
| SurvivorBounds.KeepsPace | trunk/teaf(isgw)/comm/isgw_proxy.cpp:146-163 | No position is selected more than once more often than one whose address has failed fewer than max_fail_times_ times, since the scan never jumps over it. |
| SurvivorBounds.DegradedNeedsPace | trunk/teaf(isgw)/comm/isgw_proxy.cpp:147-160 | If some position other than the survivor is the only one of its address and no request to it was in flight at the installation: the survivor has been selected max_fail_times_ times before the first degraded pick, and once more before each further one. |
| SurvivorBounds.SharpSurvivorBound | trunk/teaf(isgw)/comm/isgw_proxy.cpp:31-39 | For T threads, selections of D dead addresses <= D * (max_fail_times_ + T - 1) + max(0, survivor selections + 1 - max_fail_times_), if some position other than the survivor is the only one of its address and no request to it was in flight at the installation. |
| SurvivorBounds.SharpSequentialBound | trunk/teaf(isgw)/comm/isgw_proxy.cpp:31-39 | For one thread between calls, if some position other than the survivor is the only one of its address: F <= max_fail_times_ * D + max(0, S + 1 - max_fail_times_). |
| SurvivorBounds.SharpAfterInstall | trunk/teaf(isgw)/comm/isgw_proxy.cpp:107-164 | The same for every run of one thread from start-up, counted from its last installation. |
| SurvivorAttained.SharpBoundAttained | trunk/teaf(isgw)/comm/isgw_proxy.cpp:31-39 | Equality is reached by a run from start-up for every threshold, every D >= 1 and every S >= max_fail_times_. |
| AdminFallback.GetServers | trunk/teaf(isgw)/comm/isgw_proxy.cpp:203-243 | The admin loop returns 0 exactly when some admin is reached, its last result field reads as 0 and its last info field has a character other than a blank, and then with the items of the first such info field; otherwise it returns what the last admin left: its exchange code, -1 without a result field, the number in that field, or -100 if that number is 0; and, from an empty output, an empty list. |
| AdminFallback.UsableMeans | trunk/teaf(isgw)/comm/isgw_proxy.cpp:213-234 | For every exchange: when an admin settles the matter, in terms of the pairs of its reply. |
| AdminFallback.CodeMeans | trunk/teaf(isgw)/comm/isgw_proxy.cpp:213-227 | For every exchange: the code it leaves, and the items of its list. |
| AdminFallback.FallbackIsFirstUsable | trunk/teaf(isgw)/comm/isgw_proxy.cpp:203-243 | The value used by the interleaved model has the same meaning. |
| AdminFallback.ListReplyDecodes | trunk/teaf(isgw)/comm/isgw_proxy.cpp:218-230 | For every nonempty list of nonempty addresses free of ' ' and '&', the reply result=0&info=<list> decodes through parse, atoi and split to exactly that list. |
| ProxyCodec.Parse | trunk/teaf(isgw)/comm/isgw_proxy.cpp:46-87 | The index loop builds the last-wins map of the pairs of the text. |
| ProxyCodec.ParseCharacterised | trunk/teaf(isgw)/comm/isgw_proxy.cpp:54-84 | The pairs of a text are ps if and only if ps is well formed and the text is ps joined with '&', perhaps followed by '&' and a tail without '='; for every text and every ps. |
| ProxyCodec.RoundTripExactly | trunk/teaf(isgw)/comm/isgw_proxy.cpp:54-84 | Parsing the joined pairs gives them back if and only if names have no '=' and values no '&'. |
| ProxyCodec.Canonicalises | trunk/teaf(isgw)/comm/isgw_proxy.cpp:46-87 | Printing the parsed map in any key order and parsing again gives the same map, for every input. |
| Text.LastWinsMeaning | trunk/teaf(isgw)/comm/isgw_proxy.cpp:76 | A name is bound exactly when some pair carries it, to the value of its last pair. |
| ProxyCodec.Split | trunk/teaf(isgw)/comm/isgw_proxy.cpp:89-101 | The getline loop returns the maximal delimiter-free runs of the source. |
| Text.RunsCharacterised | trunk/teaf(isgw)/comm/isgw_proxy.cpp:94-100 | Those runs are the one way to write the text as nonempty delimiter-free items separated by delimiters. |
| Text.RunsAppend | trunk/teaf(isgw)/comm/isgw_proxy.cpp:94-100 | Splitting is a homomorphism: split(a + [d] + b) = split(a) + split(b). |
| Text.RunsOfJoin | trunk/teaf(isgw)/comm/isgw_proxy.cpp:94-100 | Splitting the joined text of nonempty delimiter-free items returns them. |
| Text.FlattenRuns | trunk/teaf(isgw)/comm/isgw_proxy.cpp:94-100 | The concatenated items are the source with its delimiters removed. |
| Decimal.AtoiOfPrint | trunk/teaf(isgw)/comm/isgw_proxy.cpp:220 | atoi reads back every printed integer, whatever non-digit text follows. |
| Decimal.AtoiReads | trunk/teaf(isgw)/comm/qmode_msg.cpp:113 | atoi for every text: blanks (six characters), at most one sign, the longest run of digits, perhaps empty or with leading zeros, and a rest; the value is the signed sum of the digits times their powers of ten. |
| Decimal.StrtoulWraps | trunk/teaf(isgw)/comm/qmode_msg.cpp:139 | strtoul stored in 32 bits: a number of either sign within 64 bits wraps modulo 2^32, a longer one gives the largest value. |
| QModeMsgClass.QModeMsg.constructor | trunk/teaf(isgw)/comm/qmode_msg.cpp:34-48 | A default message has length 0, no fields and zero numbers. |
| QModeMsgClass.QModeMsg.SetBody | trunk/teaf(isgw)/comm/qmode_msg.cpp:65-73 | A NULL body changes nothing. Any other sets body_len_ to its length, at most QMSG_MAX_LEN, and leaves in the buffer the body without a final '\r' if it is shorter than QMSG_MAX_LEN, its first QMSG_MAX_LEN - 1 characters if not, and the terminator; fields and numbers are those of `Loaded`. |
| MessageCodec.LoadedBody | trunk/teaf(isgw)/comm/qmode_msg.cpp:69-119 | The same length and text for the message value. |
| MessageCodec.LoadedFields | trunk/teaf(isgw)/comm/qmode_msg.cpp:120-140 | Its fields are those of the text, and cmd, uin and _rflag are there with an empty value when the text has none. |
| MessageCodec.LoadedNumbers | trunk/teaf(isgw)/comm/qmode_msg.cpp:138-140 | Its command and flag are their fields as atoi reads them, modulo 2^32; so is the user within 64 bits, and the largest value beyond. |
| QModeMsgClass.QModeMsg.Set | trunk/teaf(isgw)/comm/qmode_msg.cpp:75-88 | The same, and the connection fields are stored even for a NULL body. |
| QModeMsgClass.QModeMsg.ParseMsg | trunk/teaf(isgw)/comm/qmode_msg.cpp:116-143 | Parsing overwrites a '\r' at body_len_ - 1 with the terminator and no other character, keeps body_len_, and replaces the map and the three numbers by those of the remaining text. |
| QModeMsgClass.ParseText | trunk/teaf(isgw)/comm/qmode_msg.cpp:120-136 | The destructive strtok_r loop over the mutated copy builds exactly the last-wins map over the maximal separator-free runs that contain '=', split at the first one, with names cut to 63 characters. |
| CBuffers.StrtokR | trunk/teaf(isgw)/comm/qmode_msg.cpp:125 | One strtok_r call on a buffer into which it writes NULs returns the first run of the remaining text and leaves the others. |
| CBuffers.Snprintf | trunk/teaf(isgw)/comm/qmode_msg.cpp:69 | The bounded copy keeps size - 1 characters, terminates, and returns the full length. |
| MessageCodec.ParsedIdempotent | trunk/teaf(isgw)/comm/qmode_msg.cpp:116-143 | Parsing again changes nothing, although body_len_ still counts the stripped character. |
| MessageCodec.LoadedDependsOnKept | trunk/teaf(isgw)/comm/qmode_msg.cpp:65-73 | The fields and numbers are a function of the first QMSG_MAX_LEN - 1 characters, stripped '\r' or not. |
| MessageCodec.ReuseDoesNotLeak | trunk/teaf(isgw)/comm/qmode_msg.cpp:65-88 | After any sequence of bodies, NULL ones included, they are those of the last non-NULL body. |
| FieldPlaces.StoredIffWritten | trunk/teaf(isgw)/comm/qmode_msg.cpp:126-136 | For every name: it is stored exactly when it is the first 63 characters of a name written at the start of a token and followed by '='. |
| FieldPlaces.StoredValue | trunk/teaf(isgw)/comm/qmode_msg.cpp:126-136 | The stored value is the text behind the last field of that name, up to the next separator. |
| QModeMsgClass.QModeMsg.IsHave | trunk/teaf(isgw)/comm/qmode_msg.cpp:185-199 | 0 exactly when the name is a substring of the stored body, -1 otherwise, and -4 for NULL. |
| QModeMsgClass.StoredNamesAreHad | trunk/teaf(isgw)/comm/qmode_msg.cpp:185-199 | No false negatives: every name stored from a token, cut or not and with whatever value, is found by is_have after set_body. |
| SentPairs.SearchDecidesExactly | trunk/teaf(isgw)/comm/qmode_msg.cpp:192-198 | For a body joined from common pairs: is_have answers whether the field is present if and only if a name or value containing the name implies a pair called that. |
| SentPairs.SearchDecidesByTokens | trunk/teaf(isgw)/comm/qmode_msg.cpp:192-198 | For any stored text and short name: if and only if a token containing the name implies a token that starts with the name and '='. |
| FieldPlaces.FalsePositive | trunk/teaf(isgw)/comm/qmode_msg.cpp:192-198 | The body "x=a" once stored: the search finds "a" although the map of the message has no such field. |
| QModeMsgClass.QModeMsg.GetResult | trunk/teaf(isgw)/comm/qmode_msg.cpp:105-114 | -123456789 and an unchanged map when the word result is no substring of the body; otherwise the number atoi reads in the field, 0 and a new empty field if there is none, and no other field changed. |
| QModeMsgClass.ResultAfterLoad | trunk/teaf(isgw)/comm/qmode_msg.cpp:105-114 | After loading: the field's number if there is one, 0 when the word occurs only outside a field, and the error exactly when the word occurs nowhere or the field's number is the error code. |
| QModeMsgClass.ErrorCodeAsValue | trunk/teaf(isgw)/comm/qmode_msg.cpp:105-114 | A body whose field is stored and for which the error is still returned. |
| SentPairs.ResultDecidesExactly | trunk/teaf(isgw)/comm/qmode_msg.cpp:105-114 | For a body joined from common pairs: the error means that no pair is called result if and only if a name or value containing the word implies such a pair and the number of the last such pair is not the error code. |
| Agreement.ParsersAgreeExactly | trunk/teaf(isgw)/comm/qmode_msg.cpp:116-136 | For every text the two parsers build the same map if and only if it consists of pairs and an unread tail such that names are separator-free and at most 63 characters long, the last value of each name is separator-free, and each field hidden behind a line break in a value is assigned again later or agrees with the map. |
| Agreement.MapsAgreeOnLines | trunk/teaf(isgw)/comm/qmode_msg.cpp:116-136 | For texts without line breaks: if and only if the text consists of pairs with such names and values and an unread tail. |
| Agreement.PairsAgreeExactly | trunk/teaf(isgw)/comm/qmode_msg.cpp:116-136 | The assignments themselves, in order, are the same if and only if all names and values of the pairs are such. |
| Agreement.LineBreakCanBeHarmless | trunk/teaf(isgw)/comm/qmode_msg.cpp:116-136 | A text on which the assignments differ and the maps are equal. |
| Agreement.ParsersDisagree | trunk/teaf(isgw)/comm/isgw_proxy.cpp:56-83 | A concrete text on which their maps differ, because '=' is searched across '&'. |
| SentPairs.SetBodyAgreesExactly | trunk/teaf(isgw)/comm/qmode_msg.cpp:65-73 | For every body: set_body leaves the map of `parse` of the kept text, plus the default keys, if and only if that text consists of pairs as in `ParsersAgreeExactly`, with the default keys counted as part of the map. |
| SentPairs.DefaultsCanCover | trunk/teaf(isgw)/comm/qmode_msg.cpp:138-140 | A body on which the parsed maps differ and the maps after set_body do not. |
| SentPairs.SetBodyAgrees | trunk/teaf(isgw)/comm/qmode_msg.cpp:65-73 | Through set_body: a joined list of such pairs shorter than QMSG_MAX_LEN gives the map of `parse`, apart from the three default keys. |
| SentPairs.NumbersSurvive | trunk/teaf(isgw)/comm/qmode_msg.cpp:138-140 | Printed command and user numbers below 2^32 arrive in cmd_ and uin_. |

## Left out

- Sockets (connect, send, poll, receive, timeouts): one exchange is an arbitrary code and reply line, and nothing is said about how a reply arrives in chunks.
- DNS lookup and the two built-in admin addresses: the admins are any nonempty list of repliers.
- IsgwProxyClass.IsgwProxy.Get: the request text passes through and is not modelled; the reply parameter is not constrained on a failed call.
- Printing the access counts when a list is installed.
- 32-bit wrap-around of counters, times and of the sum of refresh time and interval.
- Decimal.Atoi: values outside the int range, where C leaves the result open, are taken modulo 2^32 when stored.
- The constructor of QModeMsg that copies a given number of raw bytes without parsing, the constructor that combines the default one with `set_body`, and the plain accessors.
- The receive timestamp of a message (gettimeofday).
- Reading a message before any body was stored, when its buffer is uninitialised: those methods require a stored body.
- Object caches, database, Lua and Redis adapters, statistics tables, the service framework and the sample programs: no property of comparable depth, or code that only forwards to libraries.
