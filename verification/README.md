# Kinect2JSON body-transmission pipeline in Dafny

Kinect2JSON republishes skeletal-tracking data from a Kinect sensor over
WebSockets, as JSON text, for the Scratch extension and other clients. The
repository holds four near-duplicate desktop servers, each a WPF `MainWindow`:

- Kinect2JSON (SDK 2.0, local and public server, snapshot broadcast);
- KinectinScratchServer (SDK 2.0, one server, live-list broadcast);
- WebsocketServer3 (SDK 2.0, one server, a per-call `dataReceived`, live-list broadcast);
- v1Kinect2JSON (SDK 1.x skeletons, local and public server, snapshot broadcast).

They share two versions of a `BodyCollectionSerializer`. This project models the
per-frame pipeline those windows share:

- the frame filter, which compacts the body slots to the tracked ones;
- the snapshot encoder, which builds the DTO records and renders them as JSON;
- the client registry and the send loops;
- the tick gating on `dataReceived`;
- the public-address lookup parse;
- v1's sensor selection.

Module layout:

- `Kinect`: the SDK value types. A `Body` has its tracking flag, 64-bit id, hand
  states and joint entries. A coordinate is an opaque 32-bit pattern (`bv32`).
  A body frame is exactly `BodyCount` (6) slots.
- `Text`: the string functions the code calls. `ToLower` is modelled as ASCII
  lower-casing. There is `UInt64.ToString()` as `Decimal` with its parse, and
  `Trim`, `Split` and `IndexOf`.
- `Json`: the value tree `DataContractJsonSerializer` writes for the DTOs, and a
  renderer with string escaping per section 7 of RFC 8259. Number text is the
  parameter `num`. The value-tree readers below invert the DTO-to-tree step.
- `JsonReader`: a reader for the rendered text, guided by the shape a consumer
  expects. It reads every rendered value back, so `Render` loses nothing. Number
  text is read by a parameter `numOf` that inverts `num`.
- `JointRecords`: `JSONJoint` and the inner joints loop. This is shared by both
  serializers, which build joints identically.
- `Kinect2JsonSerializer` and `Ws3Serializer`: the two `Serialize(this Body[])`.
  Each loop is a method proved equal to a map. Each record has a reader over
  the value tree, and the whole message text reads back to the records.
- `FrameFilter`: `Filter` (the specification) and `Compact`. `Compact` is the
  count-then-copy method over arrays that all four `TransmitBodyJoints` use.
- `Broadcast`: the static `_clients` list as the class `ClientList`. Its
  `OnOpen`/`OnClose` handlers are `List.Add`/`List.Remove`. Its two send loops
  either go over a copy, with registry handlers interleaved, or over the live
  list. Each `Send` is appended to a delivery log.
- `PublicIp`: `GetPublicIP` with the HTTP response as an input.
- `Kinect2JsonWindow`, `ScratchServerWindow`, `Ws3Window`, `V1Window`: each
  `MainWindow` as a class. Its fields are `bodies`, `validBodies`,
  `dataReceived`, `publicStarted`, the status text and the started servers.

Behaviours of the code worth noting:

- After the first body frame, Kinect2JSON, KinectinScratchServer and v1 send
  again on every later tick whose body frame is missing. They send the stale
  `bodies`, because `dataReceived` is a field that is never reset. Only a
  dropped multi-source frame skips the tick.
- KinectinScratchServer and WebsocketServer3 send over the live `_clients`
  list, not over a copy.
- v1 performs the address lookup twice. When the second lookup's parse throws,
  the public server has already started but `publicStarted` stays false, so the
  next activation starts another one. `V1Window.MainWindow.Activated` states
  this case.

## Model

| member | source | states |
|---|---|---|
| Kinect.Ordinal | Kinect2JSON/Kinect2JSON/BodyCollectionSerializer.cs:81-82 | a hand-state ordinal is always in 0..4 |
| Kinect.OrdinalRoundTrip | Kinect2JSON/Kinect2JSON/BodyCollectionSerializer.cs:81-82 | decoding the ordinal of every hand state by index gives that state back |
| Kinect.OrdinalOnto | Kinect2JSON/Kinect2JSON/BodyCollectionSerializer.cs:81-82 | an integer names a hand state exactly when it is in 0..4, and that state's ordinal is the integer |
| Kinect.OrdinalInjective | Kinect2JSON/Kinect2JSON/BodyCollectionSerializer.cs:81-82 | distinct hand states get distinct ordinals |
| Text.ToLowerShape | Kinect2JSON/Kinect2JSON/BodyCollectionSerializer.cs:90 | lower-casing keeps the length, leaves no upper-case letter and changes no other character |
| Text.ToLowerIdempotent | Kinect2JSON/Kinect2JSON/BodyCollectionSerializer.cs:90 | lower-casing twice is lower-casing once |
| Text.Decimal | Kinect2JSON/Kinect2JSON/BodyCollectionSerializer.cs:79 | the id text is canonical decimal: non-empty, digits only, no leading zero unless it is "0" |
| Text.DecimalValue | Kinect2JSON/Kinect2JSON/BodyCollectionSerializer.cs:79 | the digits of the id text denote the id |
| Text.DecimalRoundTrip | Kinect2JSON/Kinect2JSON/BodyCollectionSerializer.cs:79 | parsing the id text as a 64-bit unsigned integer gives back every 64-bit id |
| Text.CanonicalDecimalRoundTrip | Kinect2JSON/Kinect2JSON/BodyCollectionSerializer.cs:79 | every canonical decimal text is the rendering of its own value |
| Text.DecimalInjective | Kinect2JSON/Kinect2JSON/BodyCollectionSerializer.cs:79 | distinct ids render to distinct texts |
| Text.TrimStart | Kinect2JSON/Kinect2JSON/MainWindow.xaml.cs:692 | the result is a suffix of the input that does not start with white space, and everything cut off is white space |
| Text.TrimEnd | Kinect2JSON/Kinect2JSON/MainWindow.xaml.cs:692 | the result is a prefix of the input that does not end with white space, and everything cut off is white space |
| Text.Trim | Kinect2JSON/Kinect2JSON/MainWindow.xaml.cs:692 | `Trim` keeps a middle slice of the input that neither starts nor ends with white space, and cuts off only white space on both sides |
| Text.TrimIdempotent | Kinect2JSON/Kinect2JSON/MainWindow.xaml.cs:692 | trimming twice is trimming once |
| Text.IndexOf | Kinect2JSON/Kinect2JSON/MainWindow.xaml.cs:693 | the first position of the character, or the length when it is absent |
| Text.Split | Kinect2JSON/Kinect2JSON/MainWindow.xaml.cs:693 | `String.Split` always yields at least one piece |
| Text.SplitJoin | Kinect2JSON/Kinect2JSON/MainWindow.xaml.cs:693 | the pieces joined by the separator give the input back |
| Text.SplitPiecesFree | Kinect2JSON/Kinect2JSON/MainWindow.xaml.cs:693 | no piece holds the separator |
| Text.SplitFirst | Kinect2JSON/Kinect2JSON/MainWindow.xaml.cs:695-696 | the first piece is the text before the first separator |
| Text.SplitSecond | Kinect2JSON/Kinect2JSON/MainWindow.xaml.cs:693-694 | there is a second piece exactly when the separator occurs, and it runs to the next separator |
| Json.EscapeRoundTrip | Kinect2JSON/Kinect2JSON/BodyCollectionSerializer.cs:110-120 | `Escape` is inverted by unescaping: every string comes back |
| Json.PlainEscape | Kinect2JSON/Kinect2JSON/BodyCollectionSerializer.cs:110-120 | a string with no quote, backslash or control character is written unchanged |
| Json.RenderEmptyArray | Kinect2JSON/Kinect2JSON/BodyCollectionSerializer.cs:110-120 | an empty list is written `[]`, never null |
| Json.RenderSingleMember | Kinect2JSON/Kinect2JSON/BodyCollectionSerializer.cs:110-120 | a one-member object is written as its quoted name, a colon and its value, in braces |
| Json.RenderEmptyArrayMember | Kinect2JSON/Kinect2JSON/BodyCollectionSerializer.cs:110-120 | an object whose one member holds an empty list is written `{"name":[]}` |
| JsonReader.IntTextRoundTrip | Kinect2JSON/Kinect2JSON/BodyCollectionSerializer.cs:110-120 | every integer is written as a non-empty token that reads back as the integer |
| JsonReader.ReadQuote | Kinect2JSON/Kinect2JSON/BodyCollectionSerializer.cs:110-120 | every quoted, escaped string reads back as the string, and the text after it is left untouched |
| JsonReader.ReadRender | Kinect2JSON/Kinect2JSON/BodyCollectionSerializer.cs:110-120 | the text `Render` writes for a value of the expected shape, followed by a delimiter or nothing, reads back as that value and leaves the rest |
| JsonReader.ReadRendered | Kinect2JSON/Kinect2JSON/BodyCollectionSerializer.cs:110-120 | the whole text `Render` writes for a value of the expected shape reads back as that value |
| JsonReader.RenderInjective | Kinect2JSON/Kinect2JSON/BodyCollectionSerializer.cs:110-120 | `Render` never writes the same text for two different values of one shape |
| JointRecords.WireNameRoundTrip | Kinect2JSON/Kinect2JSON/BodyCollectionSerializer.cs:90 | `WireName`, the lower-cased `JointTypeName`, is for every joint all letters a-z, and reading it back gives the joint type |
| JointRecords.WireNameInjective | Kinect2JSON/Kinect2JSON/BodyCollectionSerializer.cs:90 | lower-casing is injective over the joint vocabulary |
| JointRecords.WireNameIsPlain | Kinect2JSON/Kinect2JSON/BodyCollectionSerializer.cs:90 | a wire name is already lower case and needs no JSON escaping |
| JointRecords.SerializeJoints | Kinect2JSON/Kinect2JSON/BodyCollectionSerializer.cs:86-95 | the joints loop builds exactly the record of each joint entry, in enumeration order |
| JointRecords.JointDtosAt | Kinect2JSON/Kinect2JSON/BodyCollectionSerializer.cs:86-95 | one joint record per entry; the k-th carries the entry's lower-case name (which reads back as the joint type) and its x, y, z unchanged |
| JointRecords.SameKeysSameNames | Kinect2JSON/Kinect2JSON/BodyCollectionSerializer.cs:86-95 | bodies with the same joint key sequence get joint lists of equal length with identical name sequences |
| JointRecords.JointJsonRoundTrip | Kinect2JSON/Kinect2JSON/BodyCollectionSerializer.cs:48-63 | a joint's value tree has members exactly name, x, y, z, and reading that back gives the record |
| JointRecords.JointsJsonRoundTrip | Kinect2JSON/Kinect2JSON/BodyCollectionSerializer.cs:39 | a joint list read back from its value tree is the list |
| JointRecords.JointsConform | Kinect2JSON/Kinect2JSON/BodyCollectionSerializer.cs:48-63 | every joint object has the members name, x, y, z with a string and three numbers |
| Kinect2JsonSerializer.SerializeBodies | Kinect2JSON/Kinect2JSON/BodyCollectionSerializer.cs:72-99 | the bodies loop builds one record per input body, in input order, filtering nothing |
| Kinect2JsonSerializer.Serialize | Kinect2JSON/Kinect2JSON/BodyCollectionSerializer.cs:70-102 | the text is the rendering of the document holding the records of all input bodies |
| Kinect2JsonSerializer.BodyDto | Kinect2JSON/Kinect2JSON/BodyCollectionSerializer.cs:77-95 | a body's record has the canonical decimal id that parses back to the tracking id, hand ordinals that decode to the hand states, and the body's joint records |
| Kinect2JsonSerializer.BodyDtosAt | Kinect2JSON/Kinect2JSON/BodyCollectionSerializer.cs:74-99 | one record per body: canonical decimal id that parses back to the tracking id, hand ordinals that decode to the hand states, and the body's joint records |
| Kinect2JsonSerializer.DistinctIds | Kinect2JSON/Kinect2JSON/BodyCollectionSerializer.cs:79 | bodies with different tracking ids get different id texts |
| Kinect2JsonSerializer.IdRendering | Kinect2JSON/Kinect2JSON/BodyCollectionSerializer.cs:79 | the id is written as the quoted decimal of the tracking id, with no exponent and no loss of digits |
| Kinect2JsonSerializer.BodyJsonRoundTrip | Kinect2JSON/Kinect2JSON/BodyCollectionSerializer.cs:31-46 | a body's value tree has members exactly id, joints, lhandstate, rhandstate, and reading that back gives the record |
| Kinect2JsonSerializer.BodiesJsonRoundTrip | Kinect2JSON/Kinect2JSON/BodyCollectionSerializer.cs:28 | a body list read back from its value tree is the list |
| Kinect2JsonSerializer.JsonRoundTrip | Kinect2JSON/Kinect2JSON/BodyCollectionSerializer.cs:24-29 | the value tree of the document `{"bodies":[...]}` reads back to the collection it was built from |
| Kinect2JsonSerializer.BodyConforms | Kinect2JSON/Kinect2JSON/BodyCollectionSerializer.cs:31-46 | every body object has the members id, joints, lhandstate, rhandstate with the expected kinds |
| Kinect2JsonSerializer.DocumentConforms | Kinect2JSON/Kinect2JSON/BodyCollectionSerializer.cs:24-29 | every document is an object with the one member bodies, an array of body objects |
| Kinect2JsonSerializer.TextRoundTrip | Kinect2JSON/Kinect2JSON/BodyCollectionSerializer.cs:101-121 | the message text a socket receives reads back as the records it was written from |
| Kinect2JsonSerializer.TextInjective | Kinect2JSON/Kinect2JSON/BodyCollectionSerializer.cs:101-121 | different record collections are sent as different texts |
| Kinect2JsonSerializer.EmptyDocument | Kinect2JSON/Kinect2JSON/BodyCollectionSerializer.cs:72-101 | with no bodies the text is `{"bodies":[]}` |
| Ws3Serializer.SerializeBodies | WebsocketServer3_2/WebsocketServer3/BodyCollectionSerializer.cs:60-100 | one record per input body, in input order, filtering nothing |
| Ws3Serializer.Serialize | WebsocketServer3_2/WebsocketServer3/BodyCollectionSerializer.cs:58-104 | the text is the rendering of the document holding the records of all input bodies |
| Ws3Serializer.BodyDto | WebsocketServer3_2/WebsocketServer3/BodyCollectionSerializer.cs:64-97 | a body's record has the canonical decimal id that parses back to the tracking id, and the body's joint records |
| Ws3Serializer.SameAsKinect2Json | WebsocketServer3_2/WebsocketServer3/BodyCollectionSerializer.cs:62-100 | this serializer emits, for every body, the same id and joints as the Kinect2JSON one, and no hand states |
| Ws3Serializer.BodyJsonRoundTrip | WebsocketServer3_2/WebsocketServer3/BodyCollectionSerializer.cs:26-33 | a body's value tree has members exactly id and joints, and reads back to the record |
| Ws3Serializer.JsonRoundTrip | WebsocketServer3_2/WebsocketServer3/BodyCollectionSerializer.cs:18-23 | the document's value tree reads back to the collection it was built from |
| Ws3Serializer.BodyConforms | WebsocketServer3_2/WebsocketServer3/BodyCollectionSerializer.cs:26-33 | every body object has the members id and joints with the expected kinds |
| Ws3Serializer.DocumentConforms | WebsocketServer3_2/WebsocketServer3/BodyCollectionSerializer.cs:18-23 | every document is an object with the one member bodies, an array of body objects |
| Ws3Serializer.TextRoundTrip | WebsocketServer3_2/WebsocketServer3/BodyCollectionSerializer.cs:102-121 | the message text a socket receives reads back as the records it was written from |
| Ws3Serializer.TextInjective | WebsocketServer3_2/WebsocketServer3/BodyCollectionSerializer.cs:102-121 | different record collections are sent as different texts |
| FrameFilter.FilterSnoc | Kinect2JSON/Kinect2JSON/MainWindow.xaml.cs:634-643 | one more slot adds itself to the filtered sequence exactly when it is tracked |
| FrameFilter.FilterAppend | Kinect2JSON/Kinect2JSON/MainWindow.xaml.cs:634-643 | filtering distributes over concatenation |
| FrameFilter.FilterPrefixRoom | Kinect2JSON/Kinect2JSON/MainWindow.xaml.cs:634-643 | the copy position plus the current tracked slot never passes the end of `validBodies` |
| FrameFilter.KeptIndicesIncreasing | Kinect2JSON/Kinect2JSON/MainWindow.xaml.cs:634-643 | the tracked slot indices are in range and strictly increasing |
| FrameFilter.FilterAtKeptIndices | Kinect2JSON/Kinect2JSON/MainWindow.xaml.cs:634-643 | the k-th kept body is the slot at the k-th tracked index |
| FrameFilter.KeptIndicesComplete | Kinect2JSON/Kinect2JSON/MainWindow.xaml.cs:634-643 | a slot index is among the kept ones exactly when that slot is tracked |
| FrameFilter.FilterIsKeptSubsequence | Kinect2JSON/Kinect2JSON/MainWindow.xaml.cs:634-643 | the filtered sequence is the tracked slots in increasing index order, each tracked slot once |
| FrameFilter.FilterAllKept | Kinect2JSON/Kinect2JSON/MainWindow.xaml.cs:634-643 | every element of the filtered sequence is tracked |
| FrameFilter.FilterPrefixLength | Kinect2JSON/Kinect2JSON/MainWindow.xaml.cs:624-633 | the filter of the first n slots is as long as the number of tracked slots among them |
| FrameFilter.FilterLength | Kinect2JSON/Kinect2JSON/MainWindow.xaml.cs:624-633 | the filtered length is the tracked count, and with nothing tracked the result is empty |
| FrameFilter.Compact | Kinect2JSON/Kinect2JSON/MainWindow.xaml.cs:624-643 | the counting loop sizes a new `validBodies` to the tracked count, and the copy loop fills it with exactly the tracked slots in order |
| Broadcast.RemoveFirst | Kinect2JSON/Kinect2JSON/MainWindow.xaml.cs:202-205 | `List.Remove` of an unregistered socket changes nothing; of a registered one it cuts out its first entry only, keeping the others in order |
| Broadcast.RemoveFirstMultiset | Kinect2JSON/Kinect2JSON/MainWindow.xaml.cs:202-205 | closing takes away one entry of that socket and no other entry |
| Broadcast.OpenThenClose | Kinect2JSON/Kinect2JSON/MainWindow.xaml.cs:197-205 | a new socket that opens and closes leaves the registry as it was |
| Broadcast.ApplyAllSnoc | Kinect2JSON/Kinect2JSON/MainWindow.xaml.cs:197-205 | handlers applied one after another in arrival order |
| Broadcast.DeliveriesSpec | Kinect2JSON/Kinect2JSON/MainWindow.xaml.cs:652-655 | one delivery per recipient, in order, each with the same message; a socket receives it as often as it is listed |
| Broadcast.DeliveriesCount | Kinect2JSON/Kinect2JSON/MainWindow.xaml.cs:652-655 | each socket receives the message as many times as it is listed |
| Broadcast.ClientList.constructor | Kinect2JSON/Kinect2JSON/MainWindow.xaml.cs:24 | the registry starts empty with nothing sent |
| Broadcast.ClientList.OnOpen | Kinect2JSON/Kinect2JSON/MainWindow.xaml.cs:197-200 | `OnOpen` appends the socket and sends nothing |
| Broadcast.ClientList.OnClose | Kinect2JSON/Kinect2JSON/MainWindow.xaml.cs:202-205 | `OnClose` removes the socket's first occurrence and sends nothing |
| Broadcast.ClientList.Handle | Kinect2JSON/Kinect2JSON/MainWindow.xaml.cs:197-205 | a handler changes the registry as that event does |
| Broadcast.ClientList.HandleNext | Kinect2JSON/Kinect2JSON/MainWindow.xaml.cs:197-205 | one more handler of a series takes the registry one event further and sends nothing |
| Broadcast.ClientList.HandleRest | Kinect2JSON/Kinect2JSON/MainWindow.xaml.cs:197-205 | the remaining handlers of a series bring the registry to the whole series applied and send nothing |
| Broadcast.ClientList.Send | Kinect2JSON/Kinect2JSON/MainWindow.xaml.cs:654 | one send appends one delivery to the log |
| Broadcast.ClientList.BroadcastSnapshot | Kinect2JSON/Kinect2JSON/MainWindow.xaml.cs:649-655 | each socket of the copy taken before the loop gets the message once, whatever registry handlers run between sends (the model interleaves at most one before each send, and runs the rest after the loop); afterwards the registry is the copy with those handlers applied |
| Broadcast.ClientList.BroadcastLive | KinectinScratchServer/KinectinScratchServer/MainWindow.xaml.cs:671-674 | each socket of the live list gets the message once, given that no handler runs during the loop |
| PublicIp.CutAddress | Kinect2JSON/Kinect2JSON/MainWindow.xaml.cs:693-697 | `CutAddress` succeeds exactly when some character follows the first ':' and it is not another ':'; the address is then the longest run without ':' or '<' that starts two characters after the first ':' |
| PublicIp.RunBeforeColon | Kinect2JSON/Kinect2JSON/MainWindow.xaml.cs:694-696 | after the first character, the text before the first '<' within the second piece is such a run |
| PublicIp.RunShift | Kinect2JSON/Kinect2JSON/MainWindow.xaml.cs:694 | a run found in a suffix is the same run in the whole text |
| PublicIp.GetPublicIp | Kinect2JSON/Kinect2JSON/MainWindow.xaml.cs:686-697 | a web failure exactly when the request fails, a parse failure exactly when the trimmed page cannot be cut, otherwise the address cut from the trimmed page, holding no ':' or '<' |
| Kinect2JsonWindow.FrameDocumentRecords | Kinect2JSON/Kinect2JSON/MainWindow.xaml.cs:624-646 | the sent document holds one record per tracked slot, in slot order, and none for an untracked slot |
| Kinect2JsonWindow.NoTrackedBodies | Kinect2JSON/Kinect2JSON/MainWindow.xaml.cs:633-655 | with no tracked slot the message `{"bodies":[]}` is still sent |
| Kinect2JsonWindow.MainWindow.constructor | Kinect2JSON/Kinect2JSON/MainWindow.xaml.cs:174-212 | the local server starts at `ws://127.0.0.1:8181`; there are no bodies yet and no public server |
| Kinect2JsonWindow.MainWindow.GetBodyJoints | Kinect2JSON/Kinect2JSON/MainWindow.xaml.cs:415-430 | a body frame allocates `bodies` once, with length `BodyCount`, refreshes it in place and latches `dataReceived`; a missing one changes nothing |
| Kinect2JsonWindow.MainWindow.TransmitBodyJoints | Kinect2JSON/Kinect2JSON/MainWindow.xaml.cs:615-656 | `validBodies` is the tracked slots in order, and their document goes once to every socket of the registry copy |
| Kinect2JsonWindow.MainWindow.ReaderMultiSourceFrameArrived | Kinect2JSON/Kinect2JSON/MainWindow.xaml.cs:346-385 | a dropped frame changes and sends nothing; once `dataReceived` is latched every frame sends the current, possibly stale, bodies |
| Kinect2JsonWindow.MainWindow.InitializePublicConnection | Kinect2JSON/Kinect2JSON/MainWindow.xaml.cs:219-251 | an address starts the public server and reports it started; a web failure reports failure; a parse failure escapes with nothing changed |
| Kinect2JsonWindow.MainWindow.Activated | Kinect2JSON/Kinect2JSON/MainWindow.xaml.cs:709-716 | the public connection is set up at most once, guarded by `publicStarted` |
| ScratchServerWindow.MainWindow.constructor | KinectinScratchServer/KinectinScratchServer/MainWindow.xaml.cs:207-242 | one server at `ws://0.0.0.0:8181` and no bodies yet |
| ScratchServerWindow.MainWindow.GetBodyJoints | KinectinScratchServer/KinectinScratchServer/MainWindow.xaml.cs:437-452 | `bodies` is allocated on the first body frame only, with length `BodyCount`, and then refreshed in place; `dataReceived` latches |
| ScratchServerWindow.MainWindow.TransmitBodyJoints | KinectinScratchServer/KinectinScratchServer/MainWindow.xaml.cs:637-675 | `validBodies` is the tracked slots in order, and their encoding goes once to every socket of the live list |
| ScratchServerWindow.MainWindow.ReaderMultiSourceFrameArrived | KinectinScratchServer/KinectinScratchServer/MainWindow.xaml.cs:337-377 | a dropped frame returns before any read or send; after the latch every frame sends the current, possibly stale, bodies |
| Ws3Window.MainWindow.constructor | WebsocketServer3_2/WebsocketServer3/MainWindow.xaml.cs:225-256 | one server at `ws://0.0.0.0:8181` and no bodies yet |
| Ws3Window.MainWindow.TransmitBodyJoints | WebsocketServer3_2/WebsocketServer3/MainWindow.xaml.cs:373-443 | nothing is sent while `bodies` is null; otherwise the tracked slots' document goes once to every socket of the live list |
| Ws3Window.MainWindow.ShowBodyJoints | WebsocketServer3_2/WebsocketServer3/MainWindow.xaml.cs:345-371 | a call sends exactly when its own body frame is present; `bodies` is allocated once and refreshed in place |
| Ws3Window.MainWindow.ReaderMultiSourceFrameArrived | WebsocketServer3_2/WebsocketServer3/MainWindow.xaml.cs:286-310 | a dropped frame or a missing body frame sends nothing; otherwise that frame's tracked bodies are sent |
| V1Window.FirstConnected | v1Kinect2JSON/v1Kinect2JSON/MainWindow.xaml.cs:255-262 | the chosen sensor is connected and no earlier one is, and none is chosen only when none is connected |
| V1Window.FirstConnectedUnique | v1Kinect2JSON/v1Kinect2JSON/MainWindow.xaml.cs:255-262 | the first connected sensor is the one the search picks |
| V1Window.MainWindow.InitializeKinect | v1Kinect2JSON/v1Kinect2JSON/MainWindow.xaml.cs:249-296 | the search loop takes the first connected sensor, and a start that throws resets the sensor to none |
| V1Window.MainWindow.constructor | v1Kinect2JSON/v1Kinect2JSON/MainWindow.xaml.cs:136-200 | the local server starts only when a sensor is in use; the sensor status reads "Connected" when a connected sensor was found and keeps its initial "Kinect not ready. Please connect the Kinect and relaunch." otherwise |
| V1Window.MainWindow.TransmitBodyJoints | v1Kinect2JSON/v1Kinect2JSON/MainWindow.xaml.cs:549-590 | `validBodies` is the skeletons whose state is `Tracked`, in order, and their encoding goes once to every socket of the registry copy |
| V1Window.MainWindow.SensorSkeletonFrameReady | v1Kinect2JSON/v1Kinect2JSON/MainWindow.xaml.cs:360-382 | each skeleton frame replaces `bodies` with a fresh copy of it; once latched, every event sends the current, possibly stale, bodies |
| V1Window.MainWindow.InitializePublicConnection | v1Kinect2JSON/v1Kinect2JSON/MainWindow.xaml.cs:207-245 | the first lookup names the server and the second the status text; web failures report failure, even after the server started; parse failures escape |
| V1Window.MainWindow.Activated | v1Kinect2JSON/v1Kinect2JSON/MainWindow.xaml.cs:649-656 | activation sets up the public connection until one gets through; a second lookup that escapes leaves a started server with `publicStarted` unset |

## Left out

- WPF rendering, the colour, infrared and skeleton displays, brushes and the `PropertyChanged` notifications are UI. Each status property is a plain string field.
- Kinect SDK calls (`AcquireFrame`, `GetAndRefreshBodyData`, `CopySkeletonDataTo`, `KinectSensor.GetDefault`, sensor start) are inputs. A missing frame is `None`, a body frame is six body values, and a start failure is a flag. SDK 2.0 `InitializeKinect` has no branch that affects transmission, so it is not part of this model.
- Body slots are values. Identity and reuse of the SDK's slot objects across frames are not modelled.
- Fleck's server start, handshake and the bytes `socket.Send` writes are network I/O. A send is an entry in a delivery log, and a started server is its address in `servers`. An exception from starting a server on a malformed address is not modelled.
- The HTTP request in `GetPublicIP` is network I/O. `PublicIp.GetPublicIp` takes it as an optional response, where `None` stands for the `WebException` the window catches. The window methods take the outcome of each `GetPublicIP()` call as a `PublicIp.Lookup`: an address, a caught web failure, or a parse exception.
- An exception that escapes an event handler is reported as `escaped`. The model continues afterwards; the WPF default of ending the application is not modelled.
- Threads are left out. The window's registry handlers run on Fleck's threads. The snapshot broadcast models them as a sequence of handlers that run between sends. The live broadcast assumes none runs during its loop; in C# one would make the enumeration throw.
- `DataContractJsonSerializer` writes '/' as `\/` and writes floating-point numbers; neither is modelled. A coordinate is written by the parameter `num`, and the renderer escapes only what section 7 of RFC 8259 requires.
- JsonReader.ReadRendered: the text round trip holds for any number formatter `num` together with a number parser `numOf` that inverts it; the floating-point formatting itself is not modelled, so that pair is a parameter. The real float writer prints every NaN bit pattern as the one text `NaN`, so it is not such a formatter: the text round trip (`TextRoundTrip`) and the injectivity (`RenderInjective`, `TextInjective`) do not cover records with a NaN coordinate, whose payload is lost in the text.
- Text.ToLower: covers ASCII letters only, not culture-sensitive lower-casing. Every joint name is ASCII, so the emitted names are the same.
- Text.TrimStart, Text.TrimEnd: treat only the Latin-1 white-space characters as white space, not all of Unicode's.
- KinectinScratchServer's `BodyCollectionSerializer.cs` is not part of this model. That window's encoder is the parameter `encode`.
- v1's `Skeleton[].Serialize()` is not part of this model. That window's encoder is the parameter `encode`, and a skeleton is reduced to its tracking state and id.
- `bodies` in v1 has the length of the frame it copies; `SkeletonArrayLength` is not fixed by the model.
