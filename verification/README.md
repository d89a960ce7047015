# ipvshttpd in Dafny

ipvshttpd takes JSON requests over HTTP and sets the weight of one real server in the Linux IPVS
table through a bundled copy of libipvs.  This project models that path from the bytes of a request
to the kernel's table, and proves what each stage keeps and what whole runs of the server do.

| file | what it models |
|---|---|
| `Machine.dfy`, `Options.dfy`, `CText.dfy` | machine integers and byte order, optional values, C strings, `strtol`, decimal printing |
| `StringTools.dfy`, `Configuration.dfy` | `src/string_tools.cpp` and the loader of `src/configuration.cpp` |
| `Records.dfy`, `Netlink.dfy`, `Codec.dfy` | libipvs records, netlink attributes and policies, encoders and decoders |
| `Ordering.dfy` | the comparators of libipvs and what sorting with them gives |
| `DumpTables.dfy`, `Libipvs.dfy` | the tables grown by dump callbacks, and the library's operations over its globals |
| `Kernel.dfy` | what a request denotes, and the kernel's table under a run of updates |
| `AddressParser.dfy`, `AddressGrammar.dfy`, `SetWeight.dfy` | the in-place address parser, its language and printer, and `set_weight` |
| `IpvsInterface.dfy` | initialisation with its retry, and the destructor |
| `RequestReader.dfy`, `RequestHandling.dfy` | the body reader and the checks of `handle_post_request` |
| `Server.dfy`, `ServerInvariant.dfy`, `ServerCall.dfy`, `ServerSafety.dfy` | any number of worker threads as a step system, its invariant, and safety |
| `ServerRuns.dfy`, `ServerProgress.dfy`, `ServerFailures.dfy` | runs of one request alone, progress, and which failures are reachable |
| `EndToEnd.dfy` | reader, checks, parser and threads together |

Objects the source updates in place are classes (`Libipvs.Session`, `DumpTables.ServiceTable`,
`Configuration.ConfigurationManager`, …) and loops are methods, each proved against a function on
values; the laws are lemmas about those functions.

Conventions.  Foreign calls are parameters: `AddressParser.Net` holds `inet_pton`, `inet_aton`, the
resolver and `getservbyname`; `Libipvs.Env` holds what allocations, the socket and the replies of one
operation answer; `Server.Choice` holds what the environment decides in a step.  The host is
little-endian Linux (`AF_INET` 2, `AF_INET6` 10), and `atoi` is glibc's `strtol` truncated to `int`.
Payloads are raw bytes, and a decoder that reads past the end of a payload sees arbitrary `past`
bytes.  The backend (netlink or sockopt) is a parameter throughout.

Results a reader may not expect, all of them following the code:

- `str_split` inverts joining for a delimiter exactly when the delimiter has no border
  (`StringTools.SplitInvertsJoin`); for other delimiters a list that is not recovered is given.
- A bracketed text that is not an IPv6 address loses the port after the bracket
  (`AddressGrammar.BracketedHostIgnoresPort`).
- The comparators are not transitive on the full domain (`Ordering.CircularServices`,
  `Ordering.CircularDests`); `Ordering.TransitiveIffNear` says exactly when they are.
- On destinations of different families the comparator can contradict itself under swapping
  (`Ordering.MixedWitness`, `Ordering.MixedSwapIff`).
- A short address attribute passes the policy and is read past its end (`Codec.ReadsInsideIff`).
- 64-bit statistics of destinations go through the 32-bit decoder (`Codec.DestStatsHalved`).
- `ipvs_get_dests` leaves its buffer on the first usable reply for an entry that counts destinations
  (`Libipvs.Session.GetDests`); entries decoded from netlink never do.
- A failed request can have changed the table, because the reply to a netlink update can be lost:
  exactly when some request would change the initial table (`ServerFailures.FailedChangeReachableIff`).
  Exactly then a destination can also differ from the last success reported for it
  (`ServerFailures.OverruledReachableIff`).
- A message is addressed with the family number left by the call before it.  After a failed resolve
  the next request is refused even if its own resolve succeeds (`ServerFailures.AddressedByPredecessor`).
- A failed `ipvs_init` keeps the raw socket it opened, so the retry after `modprobe` loses one
  (`IpvsInterface.Lifecycle`, `IpvsInterface.RetryLosesSocket`).
- A daemon reply without its attribute makes the callback follow a null pointer
  (`Libipvs.Session.GetDaemon`).
- `ipvs_get_service` returns a slot nothing was written to when the exchange ends well without a reply
  (`Libipvs.Session.GetService`).
- A port number may have white space and a sign in front of it (`AddressParser.PortTextIff`).
- A host that does not convert to a string throws while `ipvs_mutex` is held, and no request behind it
  is ever served again (`ServerProgress.LeakReachableIff`, `ServerProgress.LeakIsForever`).
- The sockopt backend accepts an unset family as IPv4 (`Kernel.BackendsAgreeIff`).

## Model

| member | source | states |
|---|---|---|
| `EndToEnd.BytesToTable` | src/http_server.cpp:144-287 | from bytes to table: in every run a destination has its initial state, or the weight of the last call carried out on it, which the received body of some connection asked for with the configured key and an address that names it |
| `EndToEnd.BodyIff` | src/http_server.cpp:144-193 | a connection hands on a body exactly when its error-free chunks up to some callback make it complete, and at most one |
| `EndToEnd.EachBodyOnce` | src/http_server.cpp:144-193 | every received body becomes exactly one request, after those of all earlier connections and before those of all later ones; a connection that is not received adds none |
| `ServerSafety.ReachInv` | src/http_server.cpp:216-287 | the invariant of all threads holds in every state reachable from the start by any schedule |
| `ServerInvariant.Invariant` | src/http_server.cpp:216-287 | every schedule of any number of threads keeps lock ownership, the guarded history and table, the threads' agreement with the history, and the origin of everything a thread carries |
| `ServerInvariant.BackKeepsHistory` | depend/libipvs/libipvs.c:416-444 | each step under `ipvs_mutex` keeps the table equal to the sequential run of the finished calls, and the acquisition order equal to their threads plus the one still inside |
| `ServerInvariant.BackKeepsSockets` | depend/libipvs/libipvs.c:77-122 | each step keeps the open sockets, and the global that names them, those of the lock holder |
| `ServerInvariant.BackKeepsFamily` | depend/libipvs/libipvs.c:58-91 | each step keeps the global family, and the header of a message in preparation, what the finished calls left, and carries out only rightly addressed messages |
| `ServerSafety.MutualExclusion` | src/http_server.cpp:226-286 | in every reachable state no thread holds both mutexes and no two threads hold the same one |
| `ServerSafety.OnlyHolderTouches` | depend/libipvs/libipvs.c:30-42 | a step of a thread without `ipvs_mutex` leaves `ipvs_func`, `sock`, `family`, the open sockets, table and history alone, except that it may take the free mutex |
| `ServerSafety.SocketIsOwn` | depend/libipvs/libipvs.c:77-122 | a thread about to send on or free the global socket finds its own there, the only open one; none is open outside the mutex |
| `ServerSafety.Linearizable` | src/http_server.cpp:273-286 | the table is the fold of the finished calls in lock order, each asking for exactly what its request and the configuration say, with the results of the sequential run |
| `ServerSafety.AnswersAreSequential` | src/http_server.cpp:233-286 | a finished request was answered by its own checks without entering the library, or by the result its call has in the sequential run, with status 200 or 500 |
| `ServerSafety.OnlyAskedEnter` | src/http_server.cpp:233-274 | only requests with the configured key, a host and an `int` weight ever take `ipvs_mutex`; of the answered ones exactly these did, and each of the others got the complaint that its first missing or wrong part calls for, with status 401 for the key and 400 for the rest |
| `ServerSafety.StringHostWanted` | src/http_server.cpp:274-275 | a request whose host is a string asks the library for that very text |
| `ServerSafety.UnauthenticInvisible` | src/http_server.cpp:240-252 | a request without the key influences nothing by what else it carries: with other members beside the same `api_key` every run goes the same way, its own answer included |
| `ServerSafety.RealTimeOrder` | src/http_server.cpp:274-286 | a request that entered before another took the mutex precedes it in the order of every later state |
| `ServerSafety.HistoryGrows` | src/http_server.cpp:274-286 | acquisition order and finished calls are only ever added to |
| `ServerSafety.LastRequestWins` | src/ipvs_interface.cpp:172-228 | in every reachable state a destination has the weight of the last request naming it that was carried out, with direct routing and zero thresholds, or its initial state |
| `ServerSafety.LastSuccessWins` | src/http_server.cpp:273-286 | in a run without lost replies, and with sockopt in every run, that is the last request answered with success |
| `ServerSafety.ServedIffHit` | depend/libipvs/libipvs.c:1282-1283 | a success was carried out on the destination it names, and conversely unless its reply was lost |
| `ServerFailures.FailedChangeReachableIff` | depend/libipvs/libipvs.c:77-122 | some run answers a request with an error after changing the table for it exactly when netlink is in use and some request would change a destination of the initial table |
| `ServerFailures.EffectiveCanFail` | depend/libipvs/libipvs.c:108-121 | the run: every request that would change the initial table, served alone with its reply lost, is such a failure |
| `ServerFailures.OverruledReachableIff` | src/http_server.cpp:273-286 | some run leaves a destination in another state than the last success reported for it, or than the initial one if there is none, exactly when netlink is in use and some request would change the initial table |
| `ServerFailures.AddressedByPredecessor` | depend/libipvs/libipvs.c:58-91 | in every run a message is addressed to IPVS exactly when the last call that resolved the family succeeded, whatever its own resolve gives; a misaddressed call fails and changes nothing |
| `ServerFailures.SpoiledReachableIff` | depend/libipvs/libipvs.c:66-91 | some run misaddresses a request whose own resolve succeeds exactly when netlink is in use and two requests ask for an update |
| `ServerCall.SoloIsSetWeight` | src/ipvs_interface.cpp:172-228 | for all answers of the environment the steps of one call change the table exactly by the update their request denotes, if it is rightly addressed, return what `SetWeight.SetWeight` promises wherever the kernel acknowledges only what it carried out, and leave no socket open |
| `ServerProgress.BoundedWork` | src/http_server.cpp:216-287 | no schedule makes more than eleven steps per request |
| `ServerProgress.StuckIff` | src/http_server.cpp:86-88 | a reachable state is stuck exactly when each request is finished, waits for a mutex whose holder died, or has not begun because workers that wait there fill the pool |
| `ServerProgress.EveryRequestAnswered` | src/http_server.cpp:216-287 | if every accepted host converts to a string, a run at rest has both mutexes free and every request answered, except exactly those whose body is JSON but neither an object nor null, whose handler threw |
| `ServerProgress.LeakReachableIff` | src/http_server.cpp:274-275 | some run dies holding `ipvs_mutex` exactly when some accepted host does not convert |
| `ServerProgress.LeakIsForever` | src/http_server.cpp:274-286 | from then on the mutex stays held and nothing behind it changes in any continuation |
| `RequestReader.FirstLengthCounts` | src/http_server.cpp:147-157 | only the first header named Content-Length, in whatever case, counts, whatever surrounds it; without one the length is 0 |
| `RequestReader.LengthIsDecimal` | src/http_server.cpp:154 | its value is read as the leading decimal number, white space before and any text after it |
| `RequestReader.ConnectionHandler.Start` | src/http_server.cpp:144-160 | the first read asks for the first Content-Length header, any case, as `size_t`, or 0 |
| `RequestReader.ConnectionHandler.HandlePostRead` | src/http_server.cpp:174-193 | the callback is one step of the reader on values, errors and modular arithmetic included |
| `RequestReader.HandledOnce` | src/http_server.cpp:144-193 | the request is handled at most once, exactly at the first error-free callback whose total is congruent to Content-Length modulo 2^64, with the concatenated chunks as body |
| `RequestReader.HandledExactly` | src/http_server.cpp:174-193 | the same from any buffer and any outstanding count |
| `RequestReader.BytesConserved` | src/http_server.cpp:174-193 | while a read is outstanding the buffer is the concatenation of the chunks, and buffered plus outstanding bytes stay congruent to Content-Length |
| `RequestReader.ExactLength` | src/http_server.cpp:174-193 | if the chunks never exceed what was asked for, a handled body has exactly that length |
| `SetWeight.SetWeight` | src/ipvs_interface.cpp:172-228 | sends exactly the request of the parsed command when it reaches the kernel and nothing otherwise, succeeds exactly when it is also acknowledged, and leaks nothing |
| `SetWeight.BuildCommand` | src/ipvs_interface.cpp:172-224 | the records are those of two parses of values, though both parses write into buffers and the second starts from a copy of the first record |
| `SetWeight.IssuedCommand` | src/ipvs_interface.cpp:172-228 | every issued command has an unmarked TCP service with nonzero port, no flags, "wlc" and no persistence engine; the destination's family and significant bytes depend on the server text alone, its port is the server's or else the service's, and both ports are in network byte order |
| `SetWeight.UpdateMeaning` | src/ipvs_interface.cpp:172-228 | for all texts, netlink asks for an update exactly when both parse and the service has a nonzero port, and then for that of the parsed endpoints; sockopt asks for the same one exactly when both are IPv4, and for nothing otherwise; both put the parsed ports on the wire high byte first |
| `AddressParser.ParseService` | src/ipvs_interface.cpp:99-153 | the in-place parser computes the parser on values for every C string and the null pointer, leaves the record as specified on success and on failure, where a bad port is noticed after the address is stored, and changes its buffer only by writing NULs |
| `AddressParser.StrIsDigit` | src/ipvs_interface.cpp:85-96 | true exactly for texts of digits, the empty one included |
| `AddressParser.PortDigits` | src/ipvs_interface.cpp:70-82 | a digit string of any length is accepted exactly when the number it denotes is at most 65535 |
| `AddressParser.PortTextIff` | src/ipvs_interface.cpp:70-82 | the exact texts accepted as a port number and the number each denotes: white space, an optional sign, digits of any length, at most 65535 |
| `AddressGrammar.ParseDecidesGrammar` | src/ipvs_interface.cpp:99-153 | the parser returns an endpoint exactly when the grammar derives it, the grammar saying from `inet_pton`, `inet_aton`, the resolver, `getservbyname` and the language of port numbers what a host and a port are |
| `AddressGrammar.ShowThenParse` | src/ipvs_interface.cpp:99-153 | the parser undoes the printer for names, IPv4 and IPv6 addresses with and without every port, except bare texts of digits, which it refuses |
| `AddressGrammar.DottedRoundTrip` | src/ipvs_interface.cpp:99-153 | every IPv4 address round-trips with and without a port |
| `AddressGrammar.BracketedHostIgnoresPort` | src/ipvs_interface.cpp:108-127 | a bracketed text that is not IPv6 is parsed as if nothing followed the bracket |
| `AddressGrammar.BodyResidueIs` | src/ipvs_interface.cpp:120-150 | what a failed parse has stored: the IPv6 address, or the host before the last colon, or nothing |
| `Kernel.NetlinkDenotes` | depend/libipvs/libipvs.c:231-263 | the netlink request carries all of service and destination but the flag bits outside the forwarding mask |
| `Kernel.BackendsAgreeIff` | depend/libipvs/libipvs.c:416-444 | sockopt sends nothing exactly for another family or a persistence engine; where it sends, it asks for the records read as IPv4, and both backends denote the same update exactly for records marked IPv4 with flags within the mask |
| `Kernel.LastUpdateWins` | depend/libipvs/libipvs.c:1282-1283 | with absent destinations refused, each destination holds the state of the last call carried out on it, or its initial state |
| `Kernel.KeysKept` | depend/libipvs/libipvs.c:416-444 | no run of updates adds or removes a destination |
| `Libipvs.Session.SendMessage` | depend/libipvs/libipvs.c:77-122 | message and socket are each released exactly once on every path, and the request is with the kernel exactly when everything before the receive succeeds |
| `Libipvs.Session.Ping` | depend/libipvs/libipvs.c:77-101 | without a message the socket is released, nothing is sent, and success means a resolved family |
| `Libipvs.Session.Init` | depend/libipvs/libipvs.c:125-151 | netlink is used exactly when it answers, and then nothing stays open; otherwise exactly the raw socket stays open, also when the call fails after opening it; success, the info request and the family left behind |
| `IpvsInterface.Lifecycle` | src/ipvs_interface.cpp:14-29 | construction, initialisation with its retry and destruction leave exactly the stranded sockets open: one for each attempt that fails after opening a raw socket |
| `IpvsInterface.IpvsInterface.Init` | src/ipvs_interface.cpp:156-169 | success of one of two attempts, and the raw sockets held afterwards, counted from the answers alone |
| `IpvsInterface.RetryLosesSocket` | src/ipvs_interface.cpp:158-161 | answers under which the retry succeeds and a socket is lost |
| `Libipvs.Session.UpdateDest` | depend/libipvs/libipvs.c:416-444 | issues exactly the encoded update on the backend in use, under the family left by the operation before, returns 0 exactly when it is acknowledged, and releases the message on every path |
| `Libipvs.AddressedIff` | depend/libipvs/libipvs.c:58-91 | after any exchanges the family names IPVS exactly when the last one that resolved it found it, or none did and it was known before |
| `Libipvs.Session.GetServices` | depend/libipvs/libipvs.c:736-758 | a table exactly when every reply decodes, holding the entries in order; its buffer is returned or freed |
| `Libipvs.Session.GetService` | depend/libipvs/libipvs.c:1025-1072 | the first entry delivered; the returned entry has been written exactly when there was a reply; of two buffers one is freed on success and both on failure |
| `Libipvs.Session.GetDests` | depend/libipvs/libipvs.c:901-957 | for an entry counting no destinations the decoded destinations in order and in bounds; for any other, out of bounds exactly on a first reply that clears a slot; the buffer is returned or freed |
| `Libipvs.Session.GetDaemon` | depend/libipvs/libipvs.c:1214-1239 | a null pointer is followed exactly when a reply without the daemon attribute comes before any rejected one; otherwise both slots exactly when every reply decodes, and the buffer is returned or freed |
| `DumpTables.ServiceTable.ParseCb` | depend/libipvs/libipvs.c:657-733 | from room for one more entry to room for one more: a valid message appends its entry, a rejected one changes no counted entry |
| `DumpTables.ServiceTable.Fill` | depend/libipvs/libipvs.c:685-726 | the field by field stores into a zeroed slot give the decoded entry and touch no other slot |
| `DumpTables.ServiceTable.Receive` | depend/libipvs/libipvs.c:743-758 | after any messages the table holds exactly the entries before the first rejected one, in arrival order |
| `DumpTables.DumpOfEncodedServices` | depend/libipvs/libipvs.c:657-733 | dumping any list of encoded services yields their entries, all and in order |
| `DumpTables.DumpedServicesUncounted` | depend/libipvs/libipvs.c:724 | no entry of a netlink dump counts destinations |
| `DumpTables.DestTable.constructor` | depend/libipvs/libipvs.c:908-933 | the table has a free slot exactly when the service entry counts no destinations |
| `DumpTables.DestTable.ParseCb` | depend/libipvs/libipvs.c:833-898 | appends the decoded destination and keeps the free slot; out of bounds exactly when there is none and the message gets to clearing it |
| `DumpTables.DestTable.Receive` | depend/libipvs/libipvs.c:914-957 | with a free slot every callback stays in bounds and all accepted destinations are there in order |
| `DumpTables.DaemonParseCb` | depend/libipvs/libipvs.c:1154-1211 | a fault exactly on a reply without the daemon attribute; otherwise the decoded daemon goes to slot 1 once slot 0 has a state and to slot 0 before, and a rejected message changes nothing |
| `DumpTables.ReceiveDaemons` | depend/libipvs/libipvs.c:1214-1239 | the slots after any messages up to the first rejected one, and a fault exactly when that one lacks the attribute |
| `DumpTables.TwoDaemonsInOrder` | depend/libipvs/libipvs.c:1154-1211 | two encoded daemons, the first with nonzero state, fill slots 0 and 1 in order |
| `Codec.ServiceRoundTrip` | depend/libipvs/libipvs.c:657-733 | decoding an encoded service keeps everything but protocol, address and port, and those exactly when the mark is 0; names keep their texts |
| `Codec.ServiceStatsRoundTrip` | depend/libipvs/libipvs.c:714-722 | the same with 64-bit statistics attached, which come through unchanged |
| `Codec.ServiceStatsChoice` | depend/libipvs/libipvs.c:714-722 | with both statistics attributes the 64-bit one is decoded and the other not looked at; the 32-bit one alone goes through its own decoder |
| `Codec.ReadsInsideIff` | depend/libipvs/ip_vs_nl_policy.c:14-30 | a message the policy lets through, without the attributes it does not mention, is decoded from its own bytes alone exactly when it has a mark or a full address |
| `Codec.ShortAddress` | depend/libipvs/libipvs.c:694-697 | a shorter address is accepted and completed with the bytes that follow it |
| `Codec.FlagsUnderMask` | depend/libipvs/libipvs.c:711-712 | flags are read under the mask that comes with them |
| `Codec.DecodedEntryNamesSameService` | depend/libipvs/libipvs.c:935-944 | the key attributes written for a decoded entry are those of the service it came from |
| `Codec.DestRoundTrip` | depend/libipvs/libipvs.c:865-880 | family, address, port, thresholds and every signed weight survive encoding and decoding; the flags keep their forwarding bits |
| `Codec.DestStatsHalved` | depend/libipvs/libipvs.c:882-890 | with 64-bit statistics the decoded entry has the byte counters exact and the other eight modulo 2^32, the right ones exactly when those eight fit 32 bits |
| `Codec.DestStatsChoice` | depend/libipvs/libipvs.c:882-890 | with both attributes the 64-bit one is decoded, and the other is used alone |
| `Codec.FamilyFromService` | depend/libipvs/libipvs.c:876-880 | a destination without a family attribute gets the family of its service |
| `Codec.Stats64Lossless` | depend/libipvs/libipvs.c:623-655 | 64-bit counters pass the 64-bit decoder unchanged |
| `Codec.Stats32Halves` | depend/libipvs/libipvs.c:589-621 | through the 32-bit decoder eight counters lose their high half |
| `Codec.DaemonRoundTrip` | depend/libipvs/libipvs.c:501-543 | what a zeroed slot holds after decoding any encoded daemon |
| `Codec.DaemonIdentityIff` | depend/libipvs/libipvs.c:1154-1211 | state, interface, sync id and port always survive; length, TTL and family exactly when they fit 16 and 8 bits and are IPv4, IPv6 or unset; the group keeps its significant bytes |
| `Ordering.CmpServices` | depend/libipvs/libipvs.c:796-822 | returns the wrapped difference of the first service fields whose wrapped difference is not 0 |
| `Ordering.ServiceFieldsInOrder` | depend/libipvs/libipvs.c:796-822 | the first of mark, family, protocol, address and port that differs decides, in this order |
| `Ordering.CmpDests` | depend/libipvs/libipvs.c:1000-1014 | the same for address and port, read in the left operand's family |
| `Ordering.ServiceCmpZeroIff` | depend/libipvs/libipvs.c:796-822 | 0 exactly for entries naming the same service |
| `Ordering.DestCmpZeroIff` | depend/libipvs/libipvs.c:1000-1014 | on one family, 0 exactly for the same significant address and port |
| `Ordering.SignAgreesIffNear` | depend/libipvs/libipvs.c:796-822 | the sign is the lexicographic order exactly when the first difference lies in [-2^31, 2^31) |
| `Ordering.AntisymmetricIff` | depend/libipvs/libipvs.c:796-822 | swapping operands flips the sign exactly when that difference is not 2^31 in size |
| `Ordering.NearPreorder` | depend/libipvs/libipvs.c:825-830 | on a table of near keys the comparator is consistent under swapping and transitive |
| `Ordering.CmpSortedIsLexSorted` | depend/libipvs/libipvs.c:825-830 | a comparator-sorted table of near keys is lexicographically sorted |
| `Ordering.ServiceSortDetermined` | depend/libipvs/libipvs.c:825-830 | whatever the initial arrangement, two comparator-sorted results of a narrow table have the same keys in the same places, in lexicographic order |
| `Ordering.DestSortDetermined` | depend/libipvs/libipvs.c:1017-1021 | the same for destinations of one family |
| `Ordering.TransitiveIffNear` | depend/libipvs/libipvs.c:796-822 | for any keys in ascending order with near neighbours the comparator is transitive exactly when the outer two are near, and circular otherwise |
| `Ordering.CircularServices` | depend/libipvs/libipvs.c:796-830 | around every service there are three, equal but for the mark, that precede each other in a circle |
| `Ordering.CircularDests` | depend/libipvs/libipvs.c:1000-1021 | the same around every destination of either family, for three addresses |
| `Ordering.MixedSwapIff` | depend/libipvs/libipvs.c:1000-1014 | for an IPv6 destination against one of another family, exactly when the comparisons from both sides tell the same order |
| `Ordering.MixedWitness` | depend/libipvs/libipvs.c:1000-1014 | beside every IPv6 destination an IPv4 one that compares lower from one side and equal from the other |
| `Configuration.ConfigurationManager.Open` | src/configuration.cpp:20-111 | loading is the fold over classified lines with early exit; a file that cannot be opened changes nothing |
| `Configuration.ConfigurationManager.ReadLine` | src/configuration.cpp:32-108 | a line is skipped, stored or refused as its text says |
| `Configuration.SkipIff` | src/configuration.cpp:35-39 | a line is skipped exactly when it is blank or its first character that is not white space is `#` |
| `Configuration.BadIff` | src/configuration.cpp:41-107 | of the other lines exactly those are refused that have no colon, or before the first one none of the eleven names |
| `Configuration.SettingIff` | src/configuration.cpp:41-99 | a line sets a key to its trimmed rest exactly when the text before its first colon is the key's name, in whatever case |
| `Configuration.KeysAreNames` | src/configuration.cpp:52-99 | the keys are the eleven names, each for its field |
| `Configuration.PrintThenLoad` | src/configuration.cpp:20-111 | opening a printed configuration restores it for all trimmed newline-free values; SSL once on stays on |
| `Configuration.LastLineWins` | src/configuration.cpp:52-99 | each field is settled by its own lines alone: by the last one, and the SSL switch by any true one |
| `Configuration.FirstBadLineStops` | src/configuration.cpp:42-107 | the first bad line fails and leaves exactly the effect of the lines before it |
| `Configuration.CommentsDoNotMatter` | src/configuration.cpp:35-39 | blank and comment lines, told from their text, can be removed from a file |
| `Configuration.TruthyIff` | src/configuration.cpp:80-87 | the SSL switch goes on exactly for "yes" and "true", in whatever case |
| `Configuration.FinalNewlineOptional` | src/configuration.cpp:32 | a file yields the same lines with and without a newline after the last |
| `Configuration.SameValuesSameConfig` | src/configuration.cpp:52-99 | files that give each key the same values in the same order load alike |
| `Configuration.ReorderingDoesNotMatter` | src/configuration.cpp:52-99 | any permutation of valid lines with distinct keys loads alike |
| `StringTools.StrSplit` | src/string_tools.cpp:52-67 | terminates for every nonempty delimiter and returns the cut at successive first occurrences |
| `StringTools.CutThenJoin` | src/string_tools.cpp:52-67 | joining the pieces restores the input |
| `StringTools.CutPieces` | src/string_tools.cpp:52-67 | all pieces but the last are delimiter-free, the last too unless a positive limit was reached, and the limit is kept |
| `StringTools.CutUnlimited` | src/string_tools.cpp:52-67 | limit 0 cuts like no limit |
| `StringTools.SplitZero` | src/string_tools.cpp:52-67 | limit 0 yields the unlimited pieces without the last |
| `StringTools.SplitInvertsJoin` | src/string_tools.cpp:52-67 | splitting inverts joining on all lists of delimiter-free pieces exactly when the delimiter is unbordered |
| `StringTools.BorderedWitness` | src/string_tools.cpp:52-67 | for a bordered delimiter, a list of delimiter-free pieces that is not recovered |
| `StringTools.SplitJoinChar` | src/string_tools.cpp:52-67 | for one-character delimiters splitting inverts joining |
| `StringTools.StrLTrim` | src/string_tools.cpp:27-33 | drops exactly the leading white space |
| `StringTools.StrRTrim` | src/string_tools.cpp:36-43 | drops exactly the trailing white space |
| `StringTools.StrTrim` | src/string_tools.cpp:46-49 | the trimmed text that stands between two runs of white space |
| `StringTools.TrimIff` | src/string_tools.cpp:46-49 | a text is the trimmed one exactly when it is trimmed and stands between two runs of white space |
| `StringTools.StrToLower` | src/string_tools.cpp:70-75 | the 26 capital letters move up by 32, every other character and the length stay |
| `StringTools.LoweredIff` | src/string_tools.cpp:70-75 | comparing a lowered text with a lower-case one is comparison up to case |
| `StringTools.StartsWithIff` | src/string_tools.cpp:78-81 | for a needle without NUL, the prefix test on the C string |
| `CText.AtoiOfPrinted` | src/string_tools.cpp:11-16 | printing an `int` and reading it with `atoi` is the identity |

## Left out

- Get operations through `getsockopt`, and the operations that add, delete or zero entries: they repeat the netlink shapes or only pass a record on.
- libnl: the byte layout of messages, acknowledgements and the receive loop; attributes are records of optional payloads, and a negative callback result aborts the receive.
- The kernel: an abstract table of destinations that refuses updates of absent ones; its scheduler, connections and statistics are not modelled.
- Failure of `realloc`, `errno`, `ipvs_strerror`, logging and the bytes of the HTTP responses (status and message are modelled).
- SetWeight.SetWeight: the resolver gives one answer per text within a call.
- StringTools.StrSplit: an empty delimiter without a positive limit never returns in the source and is excluded; the token counter does not overflow.
- JSON parsing: a function from text to a document whose values say what `isInt` and `asString` answer.
- What a throw does to the worker it happens in: the handler stops where it is and its worker counts as free; if the process ended instead, nothing would follow, and every safety result still holds up to there.
- A pool of no workers (a `threads` setting of 0): it would serve nothing.
- Server start and stop, SSL setup, signals, daemonizing, PID files, option parsing, `modprobe`, the resolver and the rate client: process and network plumbing.
- `ipvs_init` under `ipvs_mutex` at start-up (src/http_server.cpp:51-57) ends before any request thread exists, so it is modelled by itself and not as a step: the thread system starts with the backend chosen, `sockfd` fixed and the family resolved.
- Big-endian hosts: the halving of destination statistics is stated for little-endian ones.
