# A Diameter gateway, verified

This project models four parts of a Diameter gateway written in Go, and proves what they promise.

* **The codec** (`bytes`, `scalars`, `avps`, `codec`, `roundtrip`, `decoding`, `headers`, `messages`, `emitted`). The
  code the generator emits for each command is modelled once, as an interpreter over a schema: header, AVPs with 24-bit
  lengths and padding, vendor AVPs, nested groups, required, optional and repeated fields, and the value codecs.
  Marshal, Unmarshal and Validate are methods of a class whose fields are those of the struct. `emitted` says in bytes
  what Marshal puts on the wire. The central theorem is the round trip for every schema and every value, in terms of a
  canonical form, with the exact condition under which the value itself comes back. It follows sections 3, 4.1, 4.3.1
  and 4.4 of RFC 6733.
* **The relay** (`framing`, `rewriter`, `rewriting`, `relay_tables`, `protocol_errors`, `relay`, `relay_steps`,
  `relay_safety`, `relay_runs`, `relay_routing`, `relay_replies`, `relay_witness`, `relay_node`). The second AVP walker,
  the byte-level Origin rewriting, the two stream readers, the pending table, the registry and the error answer are
  methods over arrays and maps. The handlers of all connections together are a system of steps: each critical section,
  atomic operation, and read or write of a socket is one step, map iteration takes any order and each write may fail.
  `relay_node` shows that the two handlers, run without interruption, are paths of that system. Theorems hold for every
  run (sections 6.1.9 and 6.2.2 of RFC 6733); `relay_routing` says by which AVPs a request is routed, and `relay_replies`
  exactly when it gets two replies.
* **The port allocator and its users** (`portpool`, `slots`, `reconnect`, `lifecycle`, `reloop`). The pool is a class;
  its histories obey the quarantine and the queue order. `slots` composes the pool with any number of connect and close
  calls on any number of slots and proves who owns which port. `reconnect` is the pair of flags that keeps one reconnect
  loop alive. `lifecycle` puts these together for one connection: Start, the loop and any number of handleFailure calls,
  each a thread that takes its steps one by one. `reloop` holds its two runs that leak a port.
* **Failover and scans** (`failover`, `scans`). Priority failover, and whether the rotating scans meet every candidate.

Go's uint32, uint64 and int32 arithmetic is written out modulo 2^32 and 2^64. Clocks, health, dial results and write
results are parameters or choices of a step.

## What the proofs found

* A struct survives Marshal and Unmarshal exactly when Marshal returns less than 2^24 bytes, the command code is below
  2^24, no code-0 field is set, no repeated group holds a nil element, and times and addresses are in their canonical
  ranges (`MessageKeptExactly`).
* The emitted Validate checks nothing, not even required repeated fields, when a command has no required single field
  (`ValidateMisses`, and `RepeatedMissed` for one field).
* Unmarshal panics on an AVP that is taken for a Time and whose body is not four bytes, and on nothing else
  (`UnmarshalPanicsExactly`, `EmptyTimePanics`).
* The rewriting slices past the end of a message that ends inside the padding of an AVP it copies, which brings the
  relay down (`CrashesWhen`, `MissingPaddingPanics`, and a run in `CrashHappens`); messages of whole 32-bit words never
  do that (`WholeWordsHarmless`, `NeverCrashes`).
* The relay and the codec do not accept the same messages: one to seven bytes behind the last AVP end the loop of
  Unmarshal without an error, while the relay refuses the request with DIAMETER_INVALID_AVP_VALUE or drops the answer
  (`AcceptancesDiffer`, `RefusedThoughRead`, and two messages of 24 bytes in `RefusedThoughReadHappens`).
* No request is ever refused with DIAMETER_UNABLE_TO_COMPLY: that branch cannot be reached (`RoutableRewrites`).
* A request gets two replies, an answer and an error, exactly when the take that follows its failed write finds the
  entry already taken by an answer and both replies can be written; the source ignores what that take returns
  (`TwoRepliesExactly`, `TakeBackFinds`, and a run in `TwoRepliesHappen`; before 2^32 draws are exceeded).
* `client/connection.go` says that a failed first connect triggers the reconnect mechanism. It does not: handleFailure
  takes it for a failure already handled (`Reconnect.Connection.Start`).
* The pool's documentation says that dial failures cannot leak ports. A port leaks exactly when connect stores an address
  and no close has come since the store before it (`LeaksByTwoStores`). A connection gets there for two reasons only
  (`LeaksWhen`): finishReconnect has returned false over a connection that was not closed, so that the loop connects
  again (`ReloopLeaks`); or a handleFailure that had closed before the loop connected started a second loop after it had
  (`LateLoopLeaks`).
* Failover never goes straight back to a better priority while the current group is down, and never moves to one beyond
  10.
* DRAPool.Send can miss a DRA when its cursor wraps, unless the group size divides 2^32.

## Model

| member | source | states |
|---|---|---|
| Scalars.AddressRoundTrip | models_base/address.go:14-64 | Decoding a serialized address gives its canonical form (IPv4-mapped becomes four bytes, raw values are re-read by their family, some are unreadable) |
| Scalars.AddressLen | models_base/address.go:57-64 | Len is the length of the serialized address |
| Scalars.AddressBodyRoundTrip | models_base/address.go:14-55 | The other direction: re-encoding a decoded body gives the body back if and only if it is not a mapped address under family 2 and not a raw body that would be re-encoded with a family |
| Scalars.TimeRoundTrip | models_base/time.go:16-33 | Decoding a serialized time gives the canonical instant, for every Unix time |
| Scalars.CanonInstantMeaning | models_base/time.go:11-33 | The canonical instant is the given one exactly from -61505152 to 4233462143, and congruent to it modulo 2^32 always |
| Scalars.TimeBodyRoundTrip | models_base/time.go:16-33 | Re-encoding what a four-byte body decodes to gives that body, for every body |
| Scalars.ScalarRoundTrip | codegen/generator.go:855-893 | For every kind of scalar, decoding the serialized value gives its canonical form |
| Scalars.WrittenAs | models_base/time.go:28-33 | The bytes of each kind: numbers most significant byte first and in two's complement, a time as the seconds since 1900 modulo 2^32, text as it is |
| Scalars.AddressWrittenAs | models_base/address.go:36-64 | The bytes of an address: family 1 and four bytes, also for an IPv4-mapped one, family 2 and sixteen, anything else as it is |
| Scalars.ReadAs | models_base/address.go:14-34 | What is read from a body of any length, and which bodies are refused |
| Avps.PrintIsAvp | codegen/generator.go:1036-1133 | While header and data fit the 24-bit length, marshalAVP prints one padded AVP that reads back with its code, vendor and data |
| Avps.PrintTooLong | codegen/generator.go:1036-1133 | From 2^24 bytes on the length wraps and no reader of the AVP gets its data back |
| Avps.AvpLaid | codegen/generator.go:718-760 | Where the readers find code, V bit, length, vendor and body, in bytes |
| Avps.PrintedFlags | codegen/generator.go:1036-1133 | The flags byte is the V, M and P bits given and no other, and the padding is zeros |
| Avps.WalkTiles | codegen/generator.go:718-760 | The AVPs the Unmarshal loop visits are the data cut up, up to where the loop ends: nothing skipped, reordered or read twice |
| Avps.StopsOnlyThere | codegen/generator.go:718-760 | The walk stops early only before something that is no AVP |
| Avps.WalkOfAvps | codegen/generator.go:718-760 | Walking the concatenation of whole AVPs yields exactly those AVPs |
| Avps.WalkGivesAvps | codegen/generator.go:718-760 | Everything a walk yields is a whole AVP, but for the last one when its padding is missing |
| Avps.AlignedNotRagged | codegen/generator.go:718-760 | Data made of whole 32-bit words never ends inside padding |
| Codec.FillByField | codegen/generator.go:718-848 | The loop with its switch treats every field on its own: a repeated field is the in-order row of its decodable AVPs, any other the last of them, and it panics exactly when some decoder does |
| Codec.StoreByField | codegen/generator.go:760-848 | One turn of the switch changes exactly the field whose code the AVP has |
| RoundTrip.ItemRoundTrip | codegen/generator.go:578-660 | One value, scalar or group, decodes from its own payload to its canonical form |
| RoundTrip.StructRoundTrip | codegen/generator.go:2682-2932 | The round trip of a grouped AVP of any nesting |
| RoundTrip.FieldsRoundTrip | codegen/generator.go:539-848 | The round trip of any row of fields with distinct codes, required, optional, repeated, vendor-specific or grouped |
| Decoding.DecodeExactly | codegen/generator.go:704-852 | On arbitrary bytes: the loop fails exactly at a wrong length field, panics exactly where an AVP taken for a Time has no four-byte body, and otherwise gives each field its in-order row or last decodable AVP |
| Decoding.KeptStructExactly | codegen/generator.go:2682-2932 | A group is its own canonical form if and only if it holds no code-0 field, nil element or value outside its canonical range |
| Decoding.KeptCellsExactly | codegen/generator.go:578-660 | The same for the fields of a command |
| Decoding.UnknownAvpIgnored | codegen/generator.go:718-848 | An AVP of a code no field has, or with another vendor than its field, changes nothing anywhere between two AVPs |
| Decoding.KnownAvpStored | codegen/generator.go:760-848 | An AVP behind the others with the code of a field, and its vendor if the field has one, whose body decodes, is appended to a repeated field and replaces what any other holds |
| Decoding.UndecodableSkipped | codegen/generator.go:760-848 | One whose body does not decode changes nothing |
| Decoding.SkipsExactly | codegen/generator.go:760-893 | Bodies that do not decode are refused addresses and groups with a wrong length field, and no others |
| Decoding.DifferentCodesCommute | codegen/generator.go:718-848 | Neighbouring AVPs of different codes can change places without changing the result |
| Decoding.PanicsExactly | codegen/generator.go:760-848 | The loop panics if and only if some AVP, in a group of any depth, is taken for a Time and has a body of another length than four |
| Decoding.NoTimeNoPanic | codegen/generator.go:760-848 | So without Time fields no input makes the decoding panic |
| Headers.HeaderRoundTrip | codegen/generator.go:960-1034 | A printed header reads back, its length and command code reduced to 24 bits |
| Headers.ReadIsLaid | codegen/generator.go:1002-1034 | Where each field of the header is read, in bytes |
| Headers.PrintIsLaid | codegen/generator.go:960-1000 | Where each is written, with the reserved flag bits clear |
| Headers.MarshalHeader | codegen/generator.go:960-1000 | The stores of marshalHeader, each running over a byte that is then restored, leave the printed header |
| Messages.MarshalAvp | codegen/generator.go:1036-1133 | The buffer filled in place is the printed AVP |
| Messages.AppendFields | codegen/generator.go:578-660 | The appending loops of Marshal leave the printed fields in the buffer |
| Messages.DecodeFields | codegen/generator.go:718-848 | The re-slicing loop of Unmarshal assigns what the field-by-field reading says, and its outcome is that of the walk |
| Messages.Message.Validate | codegen/generator.go:480-537 | Fails exactly when some required field is single and a required repeated field has no elements, a required group is nil or a required OctetString, UTF8String, DiameterIdentity or DiameterURI is empty; other values are never looked at |
| Messages.ValidateMisses | codegen/generator.go:480-537 | It accepts a command with a required field unset if and only if no required field is single and some required repeated field is empty |
| Messages.FreshNeverValidates | codegen/generator.go:480-537 | A fresh command with a required single text or group does not validate, so Marshal fails on it |
| Messages.FreshFields | codegen/generator.go:389-411 | What the fields of a fresh command hold |
| Messages.Message.Marshal | codegen/generator.go:539-571 | Marshal fails exactly when Validate does; otherwise it returns the printed message and leaves its length in the header |
| Emitted.MarshalOnWire | codegen/generator.go:539-660 | What Marshal returns, as found on the wire: the header in its layout, then for each field in turn, inside groups too, one AVP for each of its values, with the code, vendor and V, M and P bits of the field, the value in its body, and zeros as padding |
| Messages.Message.Unmarshal | codegen/generator.go:704-852 | Unmarshal leaves the parsed header and fields in the struct, and after a failure those before it |
| Messages.UnmarshalPanicsExactly | codegen/generator.go:704-852 | Unmarshal panics if and only if the message has a header and behind it an AVP, in a group of any depth, taken for a Time whose body is not four bytes |
| Messages.EmptyTimePanics | models_base/time.go:16-24 | Such an input, for any Time field without vendor: a header and an AVP with an empty body |
| Messages.MessageRoundTrip | codegen/generator.go:539-852 | For every schema with distinct codes and every value whose AVPs fit 24-bit lengths: Unmarshal of what Marshal returns gives the canonical form of the value |
| Messages.MessageKeptExactly | codegen/generator.go:539-852 | Unmarshal reads back the struct Marshal leaves behind if and only if the length in it (the number of bytes returned) and the command code are below 2^24 and every value can be kept; AVPs of any length below 2^32 bytes in all |
| Rewriter.ShallowAgrees | dra/avp.go:35-48 | The relay and the codec read the same twenty header bytes alike |
| Rewriter.SetHopByHop | dra/avp.go:51-53 | The in-place store changes the message to the one with the new identifier |
| Rewriter.HopByHopReplaced | dra/avp.go:51-53 | Only the Hop-by-Hop identifier changes, and restoring the old one restores the message |
| Rewriter.IterateAVPs | dra/avp.go:66-106 | The offset loop makes the calls of the specification walk and returns an error exactly when it does |
| Rewriter.WalkersAgree | dra/avp.go:66-106 | On every message the relay visits the same code, vendor and body sequence as the codec, over the same bytes, and ends without an error exactly when those AVPs reach to the end of the message |
| Rewriting.AcceptancesDiffer | dra/avp.go:66-106 | The relay refuses every message Unmarshal fails on, and of those Unmarshal reads exactly the ones that leave a rest of one to seven bytes behind their AVPs |
| Rewriting.ShortRestDiffers | codegen/generator.go:718-722 | Such inputs: a header and up to seven bytes, which Unmarshal reads as a message without AVPs |
| Rewriter.ExtractRouting | dra/avp.go:123-147 | Each field of the view is the body of the last AVP without vendor of its code (264, 296, 293, 283), or empty when there is none |
| Rewriter.EncodeStringAVP | dra/avp.go:199-217 | The bytes written by hand are those the codec prints |
| Rewriter.RewriteOriginHostRealm | dra/avp.go:154-194 | The callback-driven rewriting computes the rewritten row of AVPs, or rejects, or slices past the end |
| Rewriting.RewriteMessage | dra/avp.go:154-194 | For such messages and names the rewritten message has the old header but for the true 24-bit length, and the rewritten row of AVPs |
| Rewriting.RewriteOnTheWire | dra/avp.go:154-194 | For a message of whole words that the walker accepts, and names that fit an AVP: all other AVPs stay byte-identical and in order; every vendor-0 Origin AVP is the new identity, with at least one of each |
| Rewriting.RewritePlaces | dra/avp.go:154-194 | AVP by AVP and in bytes: each AVP keeps its place and its bytes, but one of code 264 or 296 without vendor becomes the mandatory AVP with the relay's name; missing names are appended, host before realm |
| Rewriting.RewriteKeepsHeader | dra/avp.go:154-194 | For every message that can be rewritten, whole words or not, the header changes in its length alone, to the true one |
| Rewriting.RewriteIdempotent | dra/avp.go:154-194 | For such messages and names rewriting twice is rewriting once |
| Rewriting.RewriteOutcome | dra/avp.go:154-194 | For every message: rejected exactly when the walk fails, a slice past the end exactly when the walk ends inside the padding of a last AVP that is no vendor-0 Origin AVP |
| Rewriting.MissingPaddingPanics | dra/avp.go:172-180 | Such inputs: any header and one AVP with a byte of body and no padding |
| Rewriting.RewritingCommutes | dra/avp.go:154-194 | For such messages and names, when no Origin AVP carries a vendor and the Origin fields are vendor-0 strings: decoding the rewritten message gives what decoding the message gives, with only the two identity fields and the length changed |
| Rewriting.RewritingMarshalled | dra/avp.go:154-194 | The same for every message Marshal built, while its AVPs and the names fit 24-bit lengths, across both parsers |
| Framing.FramesOfMessages | dra/peer.go:65-85 | Messages sent back to back come out as they went in, whatever follows |
| Framing.FramesTile | pkg/connection/message.go:173-226 | What is read and what is left over are the stream |
| Framing.DrainedExactly | dra/peer.go:65-85 | A reader drains exactly the streams that are messages back to back, and returns those messages |
| Framing.CutExactly | dra/peer.go:65-85 | Which bytes each reader takes for a message: the length in bytes 1 to 3, at least 20, and for the relay version 1 and at most 2^20 |
| Framing.ReadersAgree | pkg/connection/message.go:173-226 | On a stream the relay drains both readers return the same messages |
| Framing.StrictExactly | pkg/connection/message.go:99-137 | The relay takes exactly what the client reads, passes ParseMessageHeader and is at most 2^20 bytes |
| Framing.ParseMessageHeader | pkg/connection/message.go:99-137 | The header is read from its layout, and refused for a short message, another version or a length below 20 |
| Framing.ReadRelayMessage | dra/peer.go:65-85 | One call reads the first message of the stream or fails when there is none |
| Framing.ReadMessage | pkg/connection/message.go:173-226 | One call reads the first message; header and body are fresh arrays that are no buffer of the pool |
| Framing.ReadAll | pkg/connection/message.go:31-51 | After any number of reads through one pool every message returned still holds what was read |
| RelayTables.PendingTable.Put | dra/route.go:30-34 | The entry is stored under its identifier, over any earlier one |
| RelayTables.PendingTable.Take | dra/route.go:36-44 | The entry is returned and removed, once |
| RelayTables.PendingTable.ForgetPeer | dra/route.go:48-56 | Deleting while ranging in any order removes exactly the entries of the peer and changes no other |
| RelayTables.Registry.RegisterPeer | dra/peer.go:93-97 | The key of the peer leads to it afterwards, whatever it led to before, and no other key changes |
| RelayTables.Registry.RemovePeer | dra/peer.go:99-106 | The key of the peer is removed if it leads to this peer; leading to a newer connection it is left alone, and no other key changes |
| RelayTables.Registry.PeerByHost | dra/peer.go:108-117 | Some registered peer of the host, and none only if there is none |
| RelayTables.Registry.PeersByRealm | dra/peer.go:121-131 | Exactly the registered peers of the realm |
| RelayTables.Registry.PickPeer | dra/route.go:68-87 | Never the sender; a peer of the Destination-Host if some registered peer is of it and the sender is not, a peer of the realm if no other than the sender is, and none only if no other peer is of the realm |
| RelayTables.FilterInPlace | dra/route.go:75-81 | Overwriting the slice while reading it leaves exactly the peers other than the sender, each as often as before and in order |
| RelayTables.ExceptAppend | dra/route.go:75-81 | Which peers remain, and their order, is decided for each peer on its own |
| RelayTables.ExceptOne | dra/route.go:75-81 | A peer remains exactly when it is not the sender |
| ProtocolErrors.BuildProtocolError | dra/start.go:236-287 | The bytes set by hand are the specified error answer |
| ProtocolErrors.ErrorAnswerRead | dra/start.go:236-287 | Read back: an answer with the error bit, the command, application and identifiers of the request, and exactly the result code and the identity of the relay |
| ProtocolErrors.ErrorAnswerBytes | dra/start.go:236-287 | In bytes: version, length, flags (E, and P if the request has it), identifiers, and the three mandatory AVPs |
| RelaySteps.ShapeKept | dra/start.go:44-102 | Every step keeps each handler, its request or answer and the draw made for it in agreement |
| RelaySteps.StepEvolves | dra/start.go:161-230 | A step never changes who asked what, a request seen to its end, an entry made or a match made |
| RelaySafety.RegistryKept | dra/peer.go:89-106 | The registry leads only to peers that have joined and not been removed, each under its own key |
| RelaySafety.RoutingKept | dra/start.go:161-183 | A request is only ever on its way to a peer of the host or realm it names that is not its sender, or refused with the code its message calls for |
| RelaySafety.RoutableRewrites | dra/start.go:177-185 | Once routing has parsed a message the rewriting cannot fail, so no request is refused as unable to comply |
| RelayRouting.FirstStageExactly | dra/start.go:161-183 | From the last AVPs 283 and 293 of a request: refused with 3003 without a realm, else looked up by its host if it names one and by its realm; and if refused later then with 3002 |
| RelayRouting.UnwalkableRefused | dra/start.go:161-167 | Refused with 5004 if its AVPs cannot be walked |
| RelayRouting.TrafficExactly | dra/start.go:71-103 | Which messages are forwarded at all, in bytes |
| RelaySafety.EntriesKept | dra/start.go:187-202 | Every entry, in the table or taken, was made by a request whose draw gave that identifier, and names no peer whose cleanup has run |
| RelaySafety.DrawnIsNew | dra/node.go:89-91 | Before 2^32 draws are exceeded an identifier just drawn is in no entry, waiting or taken |
| RelaySafety.TakenOnceKept | dra/route.go:30-44 | Before that, no entry is overwritten and no identifier is taken by two answers |
| RelaySteps.IdsCollide | dra/node.go:89-91 | Two draws give the same identifier exactly when they are a multiple of 2^32 apart |
| RelayRuns.WireKept | dra/start.go:198-207 | Every message written is what its cause calls for, and no cause has two |
| RelayRuns.InvAlways | dra/start.go:44-230 | All these invariants hold in every state of every run |
| RelayRuns.AnswersGoHome | dra/start.go:210-230 | In every run, however long: an answer goes to a peer that had a request stored under the identifier used, with that request's own Hop-by-Hop identifier |
| RelayRuns.Correlation | dra/start.go:161-230 | With at most 2^32 forwarded requests each answer matches exactly one stored request, of the peer it is written to and with its identifier, and no request is matched by two answers |
| RelayRuns.TwoReplies | dra/start.go:198-230 | Before the identifiers come round, and whatever peers do: of two replies to a request one is an answer and the other the error sent after its own write had failed |
| RelayReplies.TakeBackFinds | dra/start.go:198-204 | Before the identifiers come round, the take whose result is ignored after a failed write finds the entry gone if and only if an answer has matched the request |
| RelayReplies.TakeBackInTime | dra/start.go:198-230 | Until then a request whose take-back finds its entry gets at most one reply, whatever peers do |
| RelayReplies.TwoRepliesExactly | dra/start.go:198-230 | Until then a request gets two replies if and only if its take-back finds the entry gone and the error and an answer matched to it are both written |
| RelayWitness.TwoRepliesHappen | dra/start.go:198-230 | That case does occur: a concrete run in which a server answers a request whose write had failed makes the relay reply twice |
| RelayRuns.AtMostOneReply | dra/start.go:161-287 | Before the identifiers come round, if peers answer only what was successfully written to them, a request gets at most one reply, and an answer comes from the peer it went to |
| RelayRuns.OneFate | dra/start.go:161-207 | Every request is in its handler's hands, refused with its code, or forwarded to a suitable peer, and only one of these |
| RelayRouting.HostHonoured | dra/route.go:68-87 | In every run: a forwarded request that names a Destination-Host was looked up by it, and if some registered peer was of that host at that moment, and the sender was not, it has gone to a registered peer of that host |
| RelayRuns.ForwardedOnTheWire | dra/start.go:177-198 | What is forwarded carries the identifier drawn for it; the header is otherwise the old one but for the true length, the AVPs keep their places and bytes, and those of code 264 and 296 are the relay's, in bytes |
| RelayRuns.AnsweredOnTheWire | dra/start.go:210-230 | The same for a relayed answer, under the identifier of the request it goes back to |
| RelayRuns.RefusedOnTheWire | dra/start.go:236-287 | An error answer goes to the sender with its own identifiers and the code its message calls for |
| RelayRuns.Conservation | dra/route.go:30-56 | Puts equal current entries plus takes plus forgotten plus overwritten, and before the identifiers come round none is overwritten |
| RelayRuns.NoLateEntries | dra/start.go:46-51 | Once a handler has run forgetPeer no entry names its peer, then or ever after |
| RelayRuns.NeverStuck | dra/start.go:161-207 | A handler with a request can always take a step |
| RelayRuns.OwnStepsFinish | dra/start.go:161-207 | Each of its steps brings the request nearer to its end and no other step moves it |
| RelayRuns.CrashesWhen | dra/avp.go:172-180 | A step brings the relay down exactly when it rewrites a message that ends inside the padding of a last AVP that is no vendor-0 Origin AVP |
| RelayRuns.NeverCrashes | dra/avp.go:154-194 | No run in which no such message is read brings the relay down |
| RelayRuns.WholeWordsHarmless | dra/avp.go:172-180 | A message made of whole 32-bit words is never one of them |
| RelayWitness.CrashHappens | dra/start.go:161-185 | A run does go down: two peers join and one sends a well-framed request whose last AVP lacks its padding |
| RelayWitness.RefusedThoughRead | dra/start.go:161-169 | Of the messages Unmarshal reads a request is refused with DIAMETER_INVALID_AVP_VALUE, and an answer dropped, exactly when a rest of one to seven bytes is left behind the AVPs |
| RelayWitness.RefusedThoughReadHappens | dra/avp.go:72-74 | A request and an answer of 24 bytes for which this is so |
| RelayNode.Node.NextHbH | dra/node.go:89-91 | The counter wraps at 2^32 |
| RelayNode.Node.SendProtocolError | dra/start.go:236-287 | What is built and written is the last step of a refused request |
| RelayNode.Node.StoreAndSend | dra/start.go:187-204 | The entry stays only if the write succeeded; otherwise it is taken back and the sender gets an error |
| RelayNode.Node.ForwardRequest | dra/start.go:161-207 | Run without interruption the handler refuses, forwards under the next number to a peer of the host or the realm other than the sender, or reports the failed delivery; and it is a path of the step system: same tables, counter and message written |
| RelayNode.Node.ForwardAnswer | dra/start.go:210-230 | The same for answers |
| PortPool.New | pkg/portpool/portpool.go:90-122 | Which configurations are refused, with which error, and a pool with the whole range free, lowest port first |
| PortPool.Pool.Acquire | pkg/portpool/portpool.go:130-150 | Sweeps what is due, then gives the front of the free list, or counts a failure, modulo 2^64 |
| PortPool.Pool.Release | pkg/portpool/portpool.go:158-174 | A no-op for a port not in use; otherwise into quarantine until now plus its length, or without one to the back of the free list |
| PortPool.Pool.SweepQuarantineLocked | pkg/portpool/portpool.go:228-239 | In whatever order the map is ranged over, exactly the expired ports join the free list |
| PortPool.Pool.Snapshot | pkg/portpool/portpool.go:182-205 | The computed number of free ports is the length of the free list |
| PortPool.StepKeeps | pkg/portpool/portpool.go:110-205 | Every operation keeps free, in-use and quarantined ports disjoint, without repeats and together the whole range |
| PortPool.PartitionAlways | pkg/portpool/portpool.go:110-205 | So does every history |
| PortPool.ExhaustedExactly | pkg/portpool/portpool.go:130-140 | Acquire fails exactly when every port is in use or still quarantined at that time |
| PortPool.FreeIsCounted | pkg/portpool/portpool.go:188-194 | The arithmetic of Stats counts the free list |
| PortPool.FailuresCounted | pkg/portpool/portpool.go:130-140 | Over every history the failure count is the number of failed calls, modulo 2^64 |
| PortPool.QuarantineRespected | pkg/portpool/portpool.go:162-173 | With a clock that does not run backwards a port released at t is not acquired before t plus the quarantine |
| PortPool.FirstInFirstOut | pkg/portpool/portpool.go:142-147 | Without quarantine the ports acquired, then the free ones, are the range followed by the effective releases, in order |
| Slots.Connection.Close | client/connection.go:975-991 | The bound address is released once; a second close releases nothing |
| Slots.Connection.Connect | client/connection.go:240-290 | Only a connect that succeeds keeps a port, its own; an address bound on entry stays in use |
| Slots.OwnershipKept | client/connection.go:240-276 | Every step of every connect and close keeps each lease with one holder and its port in use |
| Slots.Exclusive | client/connection.go:975-991 | In every interleaving a held port is in use in the pool and nobody else holds it |
| Slots.ReleasedOnce | client/connection.go:968-991 | Each acquired address is released at most once |
| Slots.ReleasesOwn | pkg/connmanager/manager.go:203-215 | A release frees the releaser's own port and no port another slot or call holds |
| Slots.LeaksExactly | client/connection.go:269-273 | A step leaves a port in use that nobody holds exactly when it stores over an address still bound, and then that address's port; none is ever taken back |
| Slots.LeakFreeExactly | client/connection.go:269-273 | Over a run a port is in use that no slot and no call holds if and only if some store found an address bound |
| Slots.LeaksByTwoStores | client/connection.go:269-287 | That is, if and only if some slot stores twice with no close between |
| Slots.BoundExactly | client/connection.go:975-991 | An address is bound exactly when a store on the slot has had no close after it |
| Slots.CarefulRunsDoNotLeak | client/connection.go:226-290 | Every port in use has a holder if each connect is entered with no address bound and no other connect of its slot in progress |
| Slots.LostForEver | pkg/portpool/portpool.go:158-174 | Ports in use that nobody holds stay so for ever |
| Slots.CountedAlways | pkg/portpool/portpool.go:182-205 | Ports in use are those bound, those in calls in progress and those leaked |
| Slots.RefusedExactly | pkg/connmanager/manager.go:479-487 | A dial is refused a port exactly when these and the quarantined ones are the whole range |
| Slots.Headroom | pkg/connmanager/manager.go:479-487 | With more ports than slots, one port a slot, no leak and nothing quarantined, a dial gets its port |
| Lifecycle.LeaksExactly | client/connection.go:269-273 | With Start, loop and handleFailure calls interleaved in any way, a port has leaked if and only if some store found a connection there |
| Lifecycle.BoundExactly | client/connection.go:269-287 | A connection is there exactly when a store has had no close after it |
| Lifecycle.EarlyKept | client/connection.go:209-223 | Until the first store there is only Start, whose failed connect starts nothing; from then on Start has its store behind it |
| Lifecycle.HandlesFailure | client/connection.go:819-840 | One handleFailure alone: a connection gone and known to be down is left alone, any other marked as failed |
| Lifecycle.SchedulesAndFinishes | client/connection.go:849-965 | scheduleReconnect and finishReconnect as single steps: what becomes of the flags and of the loop |
| Lifecycle.LeaksWhen | client/connection.go:819-965 | A store leaks exactly when no close came since the store before it, and since then a finishReconnect returned false or a loop was started by a handleFailure that had closed before that store |
| Lifecycle.HistoryMeans | client/connection.go:849-965 | The two marks of these reasons mean that such a step is in the run |
| Reloop.ReloopLeaks | client/connection.go:939-948 | With any pool of three ports or more there is a run of Start, loop and handleFailure, in which finishReconnect returns false over a connection not yet closed, that leaks for this reason alone |
| Reloop.LateLoopLeaks | client/connection.go:819-860 | And one in which no finishReconnect returns false: a handleFailure that closed before the loop connected starts a second loop afterwards |
| Reconnect.Connection.ScheduleReconnect | client/connection.go:849-860 | Starts a loop or leaves a request for the one there is |
| Reconnect.Connection.FinishReconnect | client/connection.go:953-965 | Ends the loop exactly after a cancelled context or a success with the connection active and no request open; the request is taken either way |
| Reconnect.Connection.HandleFailure | client/connection.go:819-847 | Schedules a reconnect exactly when the connection is not closed, not cancelled, not already down and reconnecting is not disabled |
| Reconnect.Connection.Start | client/connection.go:209-223 | A first connect that fails schedules no reconnect, against the comment there |
| Reconnect.OneLoop | client/connection.go:849-860 | reconnecting holds exactly while one loop is live; there is never a second |
| Reconnect.RequestsAreServed | client/connection.go:897-965 | A call not yet followed by an attempt has a loop each of whose steps starts an attempt or brings it nearer, unless the context is cancelled |
| Reconnect.LoopsEndServed | client/connection.go:953-965 | A loop ends only when no request is open or the context is cancelled |
| Failover.DRAPool.constructor | client/dra_pool.go:153-181 | Each priority gets its DRAs in sorted order, no group is empty, and the first priority is active |
| Failover.OfPriorityAppend | client/dra_pool.go:153-181 | A group has its DRAs in the order of the whole, each decided on its own |
| Failover.OfPriorityOne | client/dra_pool.go:153-181 | A DRA is in the group exactly when it has the priority |
| Failover.DRAPool.CountHealthyDRAsAtPriority | client/dra_pool.go:515-527 | The number of healthy DRAs in the group, positive exactly when there is one |
| Failover.DRAPool.CheckAndUpdatePriority | client/dra_pool.go:474-512 | The search loops move to the smallest healthy priority they look at, and add one to the count, modulo 2^32, exactly when that is a change |
| Failover.CheckMeans | client/dra_pool.go:474-512 | By the DRAs that are up: to the best priority from 1 on if the current group is up, to the next one up to 10 if it is down |
| Failover.ConvergesExactly | client/dra_pool.go:474-512 | With health fixed, two checks reach the smallest healthy priority if and only if the current group or one from there to priority 10 is healthy, and stay there |
| Failover.StuckBelow | client/dra_pool.go:498-511 | The gap: the current group is down and a better one healthy, and no check goes back |
| Failover.StartsInAGroup | client/dra_pool.go:153-181 | The active priority starts as the best group exactly when it fits in 32 bits |
| Failover.AlwaysAGroup | client/dra_pool.go:474-512 | In every run the active priority names a group that is not empty |
| Failover.StartPriorityManager | client/dra_pool.go:454-471 | Over any number of ticks the failover count is the number of changes modulo 2^32 |
| Scans.RotationCovers | client/connection.go:1090-1112 | The candidate order of dialWithLocalBind is a permutation of the range, from any counter |
| Scans.DialWithLocalBind | client/connection.go:1090-1115 | It reports that no port is available only after every port of the range was tried and in use |
| Scans.SendOnAny | client/connection_pool.go:203-224 | A closed pool refuses; otherwise ErrNoActiveConnections is returned exactly when no connection is active, and else the result of the Send of the first active one from the cursor |
| Scans.SendCoversExactly | client/dra_pool.go:315-319 | The order of DRAPool.Send meets every DRA once exactly when the cursor does not wrap in the scan or the group size divides 2^32 |
| Scans.NoneSentMeans | client/dra_pool.go:315-327 | Then it fails only if no DRA of the group takes the message |
| Scans.SendAtPriority | client/dra_pool.go:300-327 | The scan asks in that order and stops at the first DRA that takes the message |
| Scans.WrapMissesOne | client/dra_pool.go:315-319 | A cursor about to wrap over three DRAs asks the first twice and the third never |

## Left out

- Sockets, deadlines, TLS, tickers and dialling appear as steps or calls that succeed or fail.
- Logging, metrics, configuration loading, governance, HTTP endpoints, commands, simulators and tests.
- The proto parser, the type declarations and constructors the generator emits, and its test generators.
- The commands' own AVP tables: the schema is a parameter with distinct codes, as a duplicate case does not compile.
- Type names the generator does not know, which it treats as OctetString: a schema has only known kinds.
- Nil and empty byte slices are the same value, and groups are values: two fields that point to one group are not modelled.
- Go panics are modelled as results where the source can panic on its input (Time bodies, missing padding); a failed
  CEA or DWA leaves no trace but the closing of the connection, and these answers are not on the modelled wire.
- The sub-second part and the location of a Time, which the encoding drops, and the values of floats beyond their bits.
- Peer pointers are numbers never used twice, and the registry key is a pair where the source joins two strings with a bar.
- Round-robin fairness of pickPeer: its counter is shared by all realms, so which candidate is picked is left open.
- RelayTables.Registry.PickPeer: the counter is a field here and a package variable in the source.
- RelayNode.Node.ForwardRequest: whether the two writes succeed is decided by its arguments, and other handlers do not
  interleave; interleavings are the subject of the step system.
- Reconnect delays, backoff and the statistics; Close racing with a connect, and what follows Close.
- Reconnect.Connection.Start: without the read loop, which can report a failure of its own while the handshake runs.
- The manager's loops over DRAs and interfaces: slots are numbers, and at most one connect per slot is not assumed.
- PortPool: ports held are natural numbers; the owner map is kept but nothing is stated about owner names.
- Failover.DRAPool.constructor: sorting is a library call, so the sorted DRAs are its argument.
- Messages.MessageKeptExactly: says nothing of messages of 2^32 bytes or more that also hold an AVP of 2^24 bytes or
  more, where both length fields have wrapped.
- Failover.DRAPool.CheckAndUpdatePriority: one check reads one snapshot of health, while the source asks IsHealthy of one
  DRA after the other.
- Lifecycle.LeaksWhen: one connection that is started once, whose port comes from a pool and whose reconnects are not
  disabled, before Close and cancellation; once a socket has been stored a failure may be reported and the watchdog may
  set the state at any time. What other connections do to the pool is the subject of Slots.
- Scans.SendOnAny: for up to 2^31 connections, so that its sum of two indices stays in 32 bits.
- The address pool and the rest of a connection's life: watchdog, message dispatch, statistics.
