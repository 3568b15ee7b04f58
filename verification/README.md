# Sunnified in Dafny

A model of the stateful cores of the Sunnified web framework, with proofs about them:

- **shutdown** (`AppProtocol`, `AppRest`, `StoredCallback`, `GracefulShutdown`, `ShutdownEnds`,
  `OtherClosers`): request goroutines and closers of one app as a step relation over per-goroutine program
  counters, what becomes of a callback, and the shutdown goroutine over all apps, as the only caller of
  `Close` and as one of several;
- **routes** (`RoutePattern`, `RouteTrie`, `RouteTheorems`, `Route`): the mutable trie as heap objects,
  proved against a map from edge paths to nodes, and theorems about that map for every history of
  registrations;
- **configuration** (`ConfigKeys`, `ConfigTree`, `ConfigSwitch`, `Config`, `SplitLastN`): nested maps
  changed in place, proved against trees, deep merge and switch resolution;
- **collections** (`OrderedMap`, `OrderedDict`, `List`): the linked chain with its index of predecessors,
  proved against an insertion-ordered map, and the growing buffer, proved against sequences;
- **mail encoders** (`QuotedPrintable`, `MessageEncoder`, `Base64`): both encoders, with decoders written
  from section 6.7 of RFC 2045 and section 4 of RFC 4648;
- **tokens** (`Csrf`, `Otp`): the request-forgery gate and the one-time passwords of RFC 4226.

`Text`, `Bytes` and `Integers` hold what is taken from Go's library and its machine integers.
`dafny verify dfyconfig.toml` checks everything.

Things the source gets from outside are parameters: time, randomness, HMAC, SHA-512 and the AES key stream,
which regular expressions compile and match, which strings `strconv` takes for numbers, and the order in
which a Go map is visited (a loop that picks keys with `:|`). A value compared by `==` is an identity.

Where the code does less than its names or comments promise, the code is what is modelled, and the row
says for which inputs the promise holds:

- a callback handed to a `Close` runs exactly if some goroutine that has brought `runners` to 0 is still on
  its way to it, or one does so later; a second `Close` on an app at rest leaves it waiting for a request
  that is turned away;
- `GracefulShutDown` counts an app down when its `Close` returns false and once more if the callback, which
  is stored all the same, runs; if somebody else has closed an app the WaitGroup can fall below 0, and does
  so exactly when more apps have been counted twice than are still to be counted;
- `OrderedDict.RemoveAt` leaves the dict unusable for appending exactly when the key is the last one, and
  `Reverse` leaves the links of the chain wrong exactly when there are two keys or more;
- `List.Index` finds a nil that is not there if the buffer has room, and a `List` transaction can leave old
  values past the end;
- what the quoted-printable encoder writes decodes to the text exactly if every CR is followed by LF or is
  last and the text does not end in a blank, and a Write that starts with a line break loses the blanks the
  text before it ended in, and one that starts with the LF of a CR LF makes a second line break of it;
- from the time 2^40 on a token is good only until the remainder of its time modulo 2^40, plus its life, so
  a gate whose tokens live less than that rejects its own;
- `PasswordAt` takes its offset from byte 19 of the digest, which is the last byte only for 20-byte digests,
  and for no longer size gives the HOTP value of every hash;
- `Set` with a dotted key replaces values that stand above its last branch, but fails on a value that
  stands at that branch.

## Model

| member | source | states |
|---|---|---|
| AppProtocol.StepKeeps | sunny.go:286-315 | every step of every goroutine keeps the protocol's invariant: `runners` counts the requests in flight plus one until the winning Close has subtracted, the lock has one holder, one Close wins, what is owed is still pending |
| AppProtocol.RunInv | sunny.go:447-463 | the invariant holds after every interleaving of any number of requests and closers |
| AppProtocol.ZeroMeansDrained | sunny.go:286-291 | a subtraction that returns 0 finds the app closed and nobody being served |
| AppProtocol.NoServingAfterZero | sunny.go:309-315 | from the first time `runners` drops to 0 nobody is past the closed check, and nobody ever passes it, although adding to `runners` and loading `closed` are separate steps |
| AppProtocol.DrainedForever | sunny.go:309-315 | once closed with nobody being served, an app stays so |
| AppProtocol.ClearRunsAlone | sunny.go:465-472 | when `clear` can run, and ever after, nobody is being served |
| AppProtocol.ZeroImpliesClosed | sunny.go:286-291 | after a zero the test of `closed` in decrunners never fails |
| AppProtocol.AtMostOnce | sunny.go:258-265 | no callback runs twice and an app is cleared at most once, even if late requests drive `runners` to 0 again |
| AppProtocol.OneWinner | sunny.go:454-460 | at most one Close returns true |
| AppProtocol.AtRestAfterClose | sunny.go:447-463 | at rest after a Close returned true: its callback is not waiting, a single callback has run exactly once, an app with id above 0 has been cleared exactly once and app 0 never |
| AppRest.StepLeavesLess | sunny.go:286-315 | every step of a goroutine leaves less to do |
| AppRest.Progress | sunny.go:447-463 | as long as some goroutine has not finished, some goroutine can go on: there is no deadlock over the mutex |
| AppRest.RestIsNear | sunny.go:286-315 | once no goroutine starts, a run has at most as many steps left as there was to do, and where it cannot go on the app is at rest |
| AppRest.RestIsReached | sunny.go:286-315 | from every reachable state rest can be reached without a new goroutine |
| StoredCallback.RunsExactlyIf | sunny.go:258-265 | for any Close, at any later rest, if no other callback has been stored: the callback has run if and only if a goroutine that had brought `runners` to 0 was on its way to it when it was stored, or `runners` has reached 0 since |
| StoredCallback.ZeroSinceRest | sunny.go:447-463 | for a Close that comes to an app at rest: it does not run without a subtraction to 0 since that rest, and runs if there is one since the store |
| StoredCallback.ReplacedNeverRuns | sunny.go:448-451 | a callback that another replaces before it has run never runs |
| StoredCallback.SecondCallbackWaits | sunny.go:448-462 | a Close on a closed app at rest, with nobody else running, returns false and leaves its callback stored, not run |
| StoredCallback.WaitingCallbackRuns | sunny.go:286-291 | a request that then comes is turned away and runs it |
| StoredCallback.EarlierZeroRunsIt | sunny.go:286-291 | a request that has brought `runners` to 0 before the store, and reaches the slot after it, runs it too, with no subtraction since the store |
| GracefulShutdown.GroupStepKeeps | sunny_graceterm.go:20-39 | every step of the shutdown goroutine, of a request in any app and of an app being made keeps: wg is the number of snapshot apps whose callback has not run |
| GracefulShutdown.GroupRunInv | sunny_graceterm.go:20-39 | that invariant over every run |
| GracefulShutdown.WaitGroupNeverNegative | sunny_graceterm.go:28-35 | Done never drives the WaitGroup below 0 |
| GracefulShutdown.ExitOnlyWhenDrained | sunny_graceterm.go:31-38 | the process exits only when every app of the snapshot has drained, its callback having run once |
| GracefulShutdown.RestMeansRan | sunny_graceterm.go:31-37 | when all apps of the snapshot are at rest, all callbacks have run |
| GracefulShutdown.WaitEnds | sunny_graceterm.go:37 | once every goroutine of every app is at rest, the wait is over |
| ShutdownEnds.BusyLess | sunny_graceterm.go:31-38 | every step that is not an arrival leaves less to do in all apps together |
| ShutdownEnds.BusyPossible | sunny_graceterm.go:31-38 | between signal and exit one of those steps is always possible |
| ShutdownEnds.ExitIsNear | sunny_graceterm.go:37-38 | once nothing arrives any more the process exits within as many steps as there was to do |
| ShutdownEnds.ExitIsReached | sunny_graceterm.go:37-38 | from the signal on the exit can be reached from every state |
| OtherClosers.OpenStepKeeps | sunny_graceterm.go:31-35 | with any other goroutines calling Close as well, every step keeps: wg is the size of the snapshot less one for each run of the goroutine's callback and one for each Close that has returned false and been counted |
| OtherClosers.OpenRunInv | sunny_graceterm.go:20-39 | that invariant over every run |
| OtherClosers.CounterIs | sunny_graceterm.go:28-35 | the WaitGroup stands at the apps not counted yet less those counted twice, so it is below 0 exactly when there are more of the second kind |
| OtherClosers.TwiceIf | sunny_graceterm.go:31-35 | an app is counted twice exactly when the Close returned false and the callback ran all the same, and never three times |
| OtherClosers.TwiceExactlyIf | sunny_graceterm.go:31-35 | of an app at rest whose Close returned false, if no other callback has been stored since: it has been counted twice if and only if a goroutine that had brought `runners` to 0 was on its way to the callback when it was stored, or `runners` has reached 0 since |
| OtherClosers.OwnRunIs | sunny_graceterm.go:31-35 | what a run of the whole group does to one app is a run of that app |
| OtherClosers.UnlessTwice | sunny_graceterm.go:28-38 | while no app has been counted twice the counter is not below 0, and the process exits only when every app of the snapshot has drained or somebody else has closed it |
| OtherClosers.CanGoTwice | sunny_graceterm.go:31-35 | whenever the loop comes to an app that somebody else has closed and that is at rest, the counter can go down by two for it |
| OtherClosers.BelowZero | sunny_graceterm.go:31-35 | a run in which the WaitGroup falls to -1 |
| RoutePattern.DepthsIncrease | router/route.go:207-234 | the nodes one pattern registers lie at strictly increasing depths: none is registered twice |
| RoutePattern.NameListsPrefix | router/route.go:207-234 | the list of names returned with a node starts with the names of the variables on the way to it |
| RoutePattern.NameListsLast | router/route.go:207-234 | the last list is all the names |
| RoutePattern.LiteralSegments | router/route.go:112-205 | a pattern of literal segments is read as those segments |
| RoutePattern.LiteralSplitPath | router/route.go:242-253 | splitting a literal path gives its segments back |
| RouteTheorems.RegisterAt | router/route.go:275-297 | an endpoint a registration reaches gets the handler and the names of the variables on its way in front |
| RouteTheorems.RegisterElsewhere | router/route.go:275-297 | an endpoint it does not reach is as it was; a new one is empty |
| RouteTheorems.NamesOfLatest | router/route.go:409-424 | after any history an endpoint reached through k variable edges has at least k names, and its first k are those of its latest registration |
| RouteTheorems.LookupEnds | router/route.go:304-379 | every lookup on every trie ends, at a node of the trie |
| RouteTheorems.LookupStaysInside | router/route.go:304-379 | whatever a lookup returns, it stands at a node of the trie |
| RouteTheorems.LookupConserves | router/route.go:304-379 | the segments walked, literal keys and captures in order, followed by the rest, are the segments given but for an extension stripped from a captured last one; there is one capture to each variable edge |
| RouteTheorems.SetHandlerMeans | router/route.go:430-477 | exactly the verbs the methods name in any case, or all but HEAD if there are none, get the handler, and an unsupported kind changes nothing |
| RouteTheorems.HandlersOfLatest | router/route.go:430-477 | after any history an endpoint's handler for a verb is the one its latest registration for that verb gave it |
| RouteTheorems.ServingIs | router/route.go:479-515 | what answers for a verb is that handler, HEAD falling back to GET |
| RouteTheorems.BindMeans | router/route.go:525-530 | each name other than `_` is bound to the last capture it stands for, and nothing else is bound |
| RouteTheorems.CapturesAreNamed | router/route.go:522-530 | after any history a lookup never has more captures than the endpoint has names, and binding gives what the latest registration's names would |
| RouteTheorems.LiteralLookup | router/route.go:328-329 | following literal keys that all have nodes reaches the last one with nothing captured and nothing left |
| RouteTheorems.LiteralReaches | router/route.go:275-297 | a literal pattern without trailing slash reaches exactly the hard end of the node its keys spell |
| RouteTheorems.EndPointStays | router/route.go:275-297 | later registrations that do not reach an endpoint leave it alone |
| RouteTheorems.LiteralNeverShadowed | router/route.go:304-334 | a literal route is found by its own path whatever else is registered, with no captures and no rest; what answers there for a verb is the handler given last for it, which is this registration's as long as no later one gives that end another |
| Route.SunnyEndPoint.PrependVarName | router/route.go:409-424 | the names are put in front of those the endpoint has |
| Route.SunnyEndPoint.SetHandler | router/route.go:430-477 | the handlers of the named methods, or of all, are replaced, whatever kind of handler is given; an unsupported kind changes nothing |
| Route.SunnyEndPoint.GetRequestedEndPoint | router/route.go:522-553 | with no more captures than names the request has the verb's handler, the captures bound to names, and the rest without the last extension |
| Route.SunnyRoute.Enter | router/route.go:131-205 | a segment is entered over the edge that fits it, the old one if there is one, and no other edge changes; exactly an expression that does not compile panics |
| Route.SunnyRoute.EnterRegex | router/route.go:131-205 | an expression reuses an edge only if its stored text is the very same |
| Route.SunnyRoute.BuildRoute | router/route.go:112-235 | it adds exactly the nodes on the way, fresh and without ends, and returns the nodes to register with their name lists |
| Route.SunnyRoute.Install | router/route.go:275-297 | one node's end, made on first use, gets handler and names; every other node and end is untouched |
| Route.SunnyRoute.InstallEach | router/route.go:275-297 | the loop over the returned nodes registers each of them |
| Route.SunnyRoute.Handle | router/route.go:255-302 | the heap after a call stands for the registered trie, the nodes still form a tree and no two ends are shared |
| Route.SunnyRoute.FindTyped | router/route.go:349-371 | the first typed edge, in slot order, that takes the piece |
| Route.SunnyRoute.FindMatch | router/route.go:336-342 | some expression that matches, if any does |
| Route.SunnyRoute.Follow | router/route.go:319-375 | literal before expression before type before plain variable, and the capture that goes with it |
| Route.SunnyRoute.FindEndPoint | router/route.go:304-379 | on the heap the walk returns an end, a rest and captures that the trie's lookup finds |
| Route.SunnyRoute.FindRequestedEndPoint | router/route.go:381-388 | on a root built by any history: the handler is the found endpoint's, there are as many captures as names on the way, and they are bound to the names of the latest registration |
| Route.HandleEach | router/route.go:255-302 | any sequence of calls on a new root leaves a heap that stands for the replay of their history |
| Route.FindLiteral | router/route.go:381-388 | on that heap a request for a literal route is answered by the latest handler given to its end for the verb, or not at all if there is none, with nothing bound and no rest, whatever calls came before and after; it is this call's handler as long as no later call gives another |
| OrderedMap.PutKeys | util/collection/ordereddictionary.go:75-101 | setting keeps the order of the keys, a new one going last |
| OrderedMap.PutLookup | util/collection/ordereddictionary.go:75-81 | a set key reads back and the others are unchanged |
| OrderedMap.DropLookup | util/collection/ordereddictionary.go:264-277 | a removed key is gone and the others are unchanged |
| OrderedMap.InitPut | util/collection/ordereddictionary.go:289-306 | popping undoes setting a new key |
| OrderedMap.ReversedLookup | util/collection/ordereddictionary.go:495-512 | reversing keeps every key's value |
| OrderedMap.SwappedKeeps | util/collection/ordereddictionary.go:593-605 | any sequence of swaps keeps every key's value and the multiset of pairs |
| OrderedMap.SwappedSides | util/collection/ordereddictionary.go:601-605 | swapping keys and values alike is swapping pairs |
| OrderedDict.OrderedDict.Get | util/collection/ordereddictionary.go:49-59 | the index leads to the key's own value, or the key is not there |
| OrderedDict.OrderedDict.Pairs | util/collection/ordereddictionary.go:173-187 | the count-bounded walk yields the pairs in order |
| OrderedDict.OrderedDict.KeysValues | util/collection/ordereddictionary.go:158-171 | keys and values come out aligned |
| OrderedDict.OrderedDict.AppendItem | util/collection/ordereddictionary.go:83-101 | a new key goes last; chain, index and tail agree afterwards |
| OrderedDict.OrderedDict.Set | util/collection/ordereddictionary.go:75-81 | refines putting a key into an insertion-ordered map |
| OrderedDict.OrderedDict.SetDefault | util/collection/ordereddictionary.go:103-110 | puts the key only if it is not there |
| OrderedDict.OrderedDict.Pop | util/collection/ordereddictionary.go:289-306 | yields and removes the last pair; panics exactly when the tail is the sentinel although the dict is not known to be empty |
| OrderedDict.OrderedDict.Clear | util/collection/ordereddictionary.go:428-434 | the dict is empty and well formed |
| OrderedDict.OrderedDict.RemoveAt | util/collection/ordereddictionary.go:264-277 | the key's pair is gone and its value returned; the chain and tail are still right exactly if the key was absent or not last |
| OrderedDict.OrderedDict.Update | util/collection/ordereddictionary.go:308-314 | in whatever order the map is visited, its entries read back, the others stay, and old keys keep their places |
| OrderedDict.OrderedDict.Clone | util/collection/ordereddictionary.go:364-393 | a dict of fresh nodes with the same pairs; of an empty dict, one whose tail is the sentinel |
| OrderedDict.OrderedDict.Transaction | util/collection/ordereddictionary.go:436-447 | all the operations (Set, SetDefault, Pop, Clear, Sort, SortByKey, in any sequence) take effect or none does, panics included |
| OrderedDict.OrderedDict.Sort | util/collection/ordereddictionary.go:514-548 | the rebuilt chain holds the pairs as sort.Sort's swaps left them; if they put the values in order, the dict has them in order |
| OrderedDict.OrderedDict.SortByKey | util/collection/ordereddictionary.go:550-584 | sorting keys and fetching values gives the same as moving the pairs; if the swaps put the keys in order, the dict has them in order |
| OrderedDict.OrderedDict.Reverse | util/collection/ordereddictionary.go:495-512 | afterwards the walks yield the pairs backwards and every key has its own value; the whole is well formed exactly if there is at most one key |
| OrderedDict.OrderedDict.Rewire | util/collection/ordereddictionary.go:501-511 | the loop turns every link and every index entry but the last link |
| OrderedDict.TurnReverse | util/collection/ordereddictionary.go:502-509 | one turn: the node reached is the next of the reversed chain, and the index entries of the keys passed point the other way |
| OrderedDict.EndReverse | util/collection/ordereddictionary.go:495-512 | the rewritten index is that of the reversed pairs |
| QuotedPrintable.KeptCanonical | util/mail/encode.go:46-76 | what the encoder keeps is the text with canonical line breaks, or strictly less |
| QuotedPrintable.KeptExactly | util/mail/encode.go:48-54 | what the loop takes in, before any decoding, is the canonical text if and only if every CR is followed by LF or is last |
| QuotedPrintable.BlankAtTheEnd | util/mail/encode.go:55-78 | a text that ends in a blank is encoded as itself and does not read back |
| QuotedPrintable.CanonicalsAre | util/mail/encode.go:48-54 | the canonical forms of the parts of a text make that of the text if and only if no CR LF is cut in two |
| MessageEncoder.AddsPlain | util/mail/encode.go:55-62 | a byte that stands for itself reads as itself and puts no blank before a hard break, after a soft break or not |
| MessageEncoder.AddsEscape | util/mail/encode.go:63-70 | an escaped byte likewise |
| MessageEncoder.BrokenLines | util/mail/encode.go:81-98 | the rewrite of a blank before a line break keeps lines within 76 characters, also when it needs a line of its own |
| MessageEncoder.BrokenReads | util/mail/encode.go:81-98 | and reads as the same text followed by CR LF |
| MessageEncoder.BrokenEnds | util/mail/encode.go:81-98 | and leaves no blank before the break |
| MessageEncoder.MessageEncoder.InsertNl | util/mail/encode.go:81-98 | in-place rewrite of the last byte and the break after it |
| MessageEncoder.MessageEncoder.Put | util/mail/encode.go:55-70 | one byte is added; `i` is the length of the current line, at most 75 |
| MessageEncoder.MessageEncoder.Write | util/mail/encode.go:31-79 | after any earlier Writes: no line is longer than 76, `i` is the current column, no hard break of this Write has a blank before it, and what is read from the output, blanks held back at its end included, is what was read before followed by the text kept, but for blanks at the end of the earlier text if a break comes next; on a fresh encoder the output decodes to the canonical text if and only if every CR is followed by LF or is last and the text does not end in a blank |
| MessageEncoder.WriteEach | util/mail/encode.go:31-79 | any sequence of Writes to a new encoder, of parts in which every CR is followed by LF or is last: the output decodes to the canonical form of the whole text if and only if no part that comes after a blank starts with a line break, no CR LF is cut in two, and the text does not end in a blank |
| MessageEncoder.LossMadeUpFor | util/mail/encode.go:48-54 | for other parts that fails: what one of them loses a cut CR LF can add |
| MessageEncoder.MessageEncoder.Take | util/mail/encode.go:100-112 | hands out what was written and starts afresh |
| Base64.RoundTrip | util/mail/mail.go:582-610 | decoding undoes encoding, for every byte string |
| Base64.EncodePieces | util/mail/mail.go:592-606 | encoding piece by piece is encoding the whole if the pieces are multiples of three, as 57 is |
| Base64.WrappedShape | util/mail/mail.go:585-588 | the computed buffer length is exact, all lines but the last have 76 characters, the last is not empty, and the lines joined are the encoding of the whole |
| Base64.EncodeBase64WithNewLine | util/mail/mail.go:582-610 | every slice is in range and every byte of the buffer written; the output is the wrapped encoding, without a break at the end, and decodes to the content once the breaks are out |
| List.FirstIs | util/collection/list.go:184-192 | the least position of a value, or -1 exactly if it is not there |
| List.AppendsCopyLittle | util/collection/list.go:69-89 | from empty, n appends copy at most 11n elements in total |
| List.List.constructor | util/collection/list.go:23-34 | a list of the given values |
| List.List.Get | util/collection/list.go:36-45 | the element, or nil past the end |
| List.List.Expand | util/collection/list.go:78-89 | a larger buffer with the same contents, the slots past the end nil and exlen at least a tenth of the capacity |
| List.List.Append | util/collection/list.go:69-76 | the value comes last |
| List.List.PrepareSize | util/collection/list.go:112-121 | it always allocates, even if there is room |
| List.List.Extend | util/collection/list.go:101-110 | the values come last, in order |
| List.List.ExtendArray | util/collection/list.go:123-135 | likewise, one by one |
| List.List.Index | util/collection/list.go:184-192 | the least position in the contents, although the whole buffer is scanned, but for an absent nil when there is room |
| List.List.LastIndex | util/collection/list.go:171-182 | the greatest position, or -1 |
| List.List.Contains | util/collection/list.go:194-201 | all values are there, with the same exception |
| List.List.Set | util/collection/list.go:210-219 | the value at the index, filled up with nil as far as needed |
| List.List.RemoveAt | util/collection/list.go:259-271 | the element is returned and taken out; an index out of range changes nothing |
| List.List.Remove | util/collection/list.go:273-278 | the first occurrence is taken out, for nil as well |
| List.List.Clear | util/collection/list.go:286-291 | an empty list as NewList makes it |
| List.List.Clone | util/collection/list.go:360-371 | a list on a buffer of its own with the same contents |
| List.List.Transaction | util/collection/list.go:381-398 | any sequence of operations runs on a clone; if the function agrees the contents are the outcome, and the slots past the end are nil if and only if the capacity has changed or the slots given up held only nil; if not nothing has changed |
| List.List.Commit | util/collection/list.go:388-396 | once the function has agreed, the contents are the clone's; the slots past the end are nil if and only if the capacity changed or the old buffer had only nil there |
| List.List.Swap | util/collection/list.go:299-301 | two slots are exchanged |
| List.List.Reverse | util/collection/list.go:303-312 | the contents are mirrored in place |
| List.Collect | util/collection/list.go:69-89 | n appends on a real list copy at most 11n elements |
| SplitLastN.SplitLastMeans | util/util.go:52-74 | joining gives the string back; every part but the first is free of the separator, and so is the first if fewer parts came out than asked for |
| SplitLastN.LimitOnlyStops | util/util.go:60-74 | a smaller limit leaves the last parts as they are and joins the others |
| SplitLastN.OneChar | util/util.go:60-74 | for one character and no limit the parts are those of splitting from the left |
| SplitLastN.SplitAllMeans | util/util.go:28-30 | without a limit: joining gives the string back and no part holds the separator |
| SplitLastN.SplitAllIsSplit | util/util.go:28-30 | for one character that is the split used for paths |
| SplitLastN.LastSinglesMeans | util/util.go:34-51 | with an empty separator nothing is lost, and there are as many parts as asked for if there are as many characters |
| SplitLastN.StringSplitLastN | util/util.go:23-77 | the loop from the right computes that split, for every limit, zero and negative ones included; an empty separator splits into characters |
| ConfigKeys.LastDot | config/config.go:1113-1121 | cutting a key at its last dot cuts the last segment off its path |
| ConfigTree.PutAt | config/config.go:175-196 | what is put at a path is there, and every path that is neither a prefix nor an extension is as it was |
| ConfigTree.MadeStep | config/config.go:213-223 | making branches segment by segment is making the whole path |
| ConfigTree.PutMade | config/config.go:179-188 | making the branch first and putting into it is putting at the whole path |
| ConfigTree.MergeAt | config/config.go:141-173 | every path after a merge: the argument's values read back, its branches are branches, nothing is left below its values, and all other paths are unchanged |
| ConfigTree.MergeAgain | config/config.go:141-173 | merging again changes nothing, or, where a branch had replaced a value, only the width of numbers |
| ConfigSwitch.MergeSize | config/config.go:141-173 | a merge is no larger than the two trees together |
| ConfigSwitch.StepSize | config/config.go:1072-1099 | replacing a switch by its case makes the tree strictly smaller: parsing terminates |
| ConfigSwitch.DropFirst | config/config.go:1088-1098 | the switch may be dropped before or after its case is merged |
| ConfigSwitch.ResolvedHasNoSwitch | config/config.go:1067-1106 | after resolving no Configuration reached through Configurations has a switch |
| ConfigSwitch.RootHasNoSwitch | config/config.go:1067-1106 | nor from the root |
| ConfigSwitch.NothingToResolve | config/config.go:1101-1105 | a tree without switches is left as it is |
| ConfigSwitch.ResolveRootTwice | config/config.go:1067-1106 | resolving twice is resolving once |
| ConfigSwitch.ResolveKeeps | config/config.go:1101-1105 | a value with no switch on its way keeps its place |
| ConfigSwitch.SelectedCaseWins | config/config.go:1080-1095 | what the selected case has at a path is there afterwards |
| ConfigSwitch.TameStep | config/config.go:1088-1095 | replacing a switch keeps what parsing relies on: plain keys, and no case with a switch of its own at its top |
| ConfigSwitch.TameIncluded | config/config.go:1011-1020 | so does reading a map |
| ConfigSwitch.ParsedHasNoSwitch | config/config.go:136-139 | the parsed configuration has no switch |
| Config.Configuration.BranchFinds | config/config.go:232-260 | Branch follows the path of its name, through Configurations and raw maps alike |
| Config.Configuration.InterfaceAt | config/config.go:279-295 | a dotted key reads what its path leads to, or nil |
| Config.Configuration.Walk | config/config.go:210-223 | a branch is made at the path, in place, whatever part of it there was |
| Config.Configuration.MakeBranch | config/config.go:198-230 | the branch at the path, made if needed; it fails exactly if a value other than nil stands there, and then changes nothing |
| Config.Configuration.Set | config/config.go:175-196 | on success the key reads back, widened, and the tree is the old one with the value put at the path; when exactly it fails, with which error, and that it then changes nothing; paths that do not run along the key's are unchanged |
| Config.Configuration.SetLast | config/config.go:180-190 | the value under the last segment, unless a raw map stands there |
| Config.Configuration.UpdateKey | config/config.go:147-171 | one key of the argument: merged into the branch, into a new one, or taking the place of a value |
| Config.Configuration.Update | config/config.go:141-173 | in whatever order the keys are visited the tree is the deep merge; the argument is unchanged and absorbed: each of its branches is here as the same map, where a value made room for it, or as one that absorbed it; updating with what has been absorbed changes no map at all |
| Config.Configuration.UpdateTwice | config/config.go:141-173 | a repeated update changes nothing, number widths included, for every argument that shares no map before the first |
| Config.Configuration.UpdateAgain | config/config.go:141-173 | nor does one with a copy of the argument, but for the width of numbers |
| Config.Configuration.String | config/config.go:357-370 | the string a key leads to, or the empty string |
| Config.Configuration.ParseInclude | config/config.go:1011-1020 | raw maps are copied into Configurations at every level, a switch is taken over as it is |
| Config.Configuration.SelectCase | config/config.go:1076-1095 | the case the root's string selects, or the default |
| Config.Configuration.ReplaceSwitch | config/config.go:1072-1099 | the node's own switch is replaced by its case although the case lies inside the node |
| Config.Configuration.ParseChildren | config/config.go:1101-1105 | the Configurations below are resolved, in whatever order |
| Config.Configuration.ParseSwitch | config/config.go:1067-1106 | the recursion ends and its result is that of the pure resolver |
| Config.Configuration.Parse | config/config.go:136-139 | parsing ends, depends on nothing but the two trees, and leaves no switch |
| Csrf.LittleEndianPrefix | sec/sec.go:136-143 | the first bytes of a number's eight are the number cut to that width |
| Csrf.ReadBack | sec/sec.go:206-221 | five bytes filled up with zeros read as the number modulo 2^40 |
| Csrf.DecryptEncrypt | sec/aes.go:18-48 | decrypting undoes encrypting, through base64 and the key stream |
| Csrf.AcceptedForItsLife | sec/sec.go:223-238 | a token issued at t below 2^40 is accepted with its cookie at exactly the times from t to t + life, if t + life fits into 64 bits, and otherwise never |
| Csrf.RejectedOnceTimeOutgrowsIt | sec/sec.go:136-143 | hence from 2^40 seconds on every token that lives less than that is rejected |
| Csrf.AcceptedByItsStamp | sec/sec.go:223-238 | for every time of issue and every life: from t on it is accepted exactly until t modulo 2^40 plus the life, if that fits into 64 bits, and otherwise never |
| Csrf.BoundToItsCookie | sec/sec.go:229-236 | a token is accepted only with the cookie it was issued with |
| Csrf.HandedOutIsAccepted | sec/sec.go:84-240 | what CSRFToken hands out, sent back to VerifyCSRFToken, is accepted at exactly those times |
| Csrf.NewCSRFGate | sec/sec.go:56-73 | there is no gate without both keys; a life of 0 becomes four hours |
| Csrf.CSRFGate.constructor | sec/sec.go:56-73 | a life of 0 becomes four hours |
| Csrf.CSRFGate.CSRFToken | sec/sec.go:84-171 | the token decrypts to time, random part and current mac, the cookie to the same random part, which is the old cookie's if it holds one; when it fails and when a cookie is written |
| Csrf.CSRFGate.HashFill | sec/sec.go:108-130 | without randomness the random part is the start of a hash |
| Csrf.CSRFGate.Message | sec/sec.go:136-144 | the eight bytes of the time are cut to five by what is written over them |
| Csrf.CSRFGate.VerifyCSRFToken | sec/sec.go:174-240 | a header must repeat the cookie; a form token is accepted exactly by its age, its cookie and the current or previous mac |
| Otp.PasswordIsHotp | auth/otp/otp.go:183-195 | for 20-byte digests the password is the value of section 5.3 of RFC 4226 |
| Otp.LongDigestsDiffer | auth/otp/otp.go:191 | for every larger digest size, and six or eight digits, some hash of that size gives another password: 20 is the only size for which it is always the HOTP value |
| Otp.CutIsMod | auth/otp/otp.go:194 | the last characters of the ten-digit form are the number modulo 10 to the digits, filled up with zeros |
| Otp.FixedReads | auth/otp/otp.go:194 | different numbers of that size have different forms |
| Otp.LeastIs | auth/otp/otp.go:246-251 | the search finds the least matching factor of the window, or none matches |
| Otp.AcceptedIsUnbounded | auth/otp/otp.go:167-173 | the factors a run accepts are those of a counter without a bound, modulo 2^64 |
| Otp.UnboundedClimbs | auth/otp/otp.go:167-173 | those go up strictly, by no more than the window each time |
| Otp.AcceptedAscend | auth/otp/otp.go:167-173 | over any run the accepted factors go up strictly from the counter on if and only if the counter does not pass 2^64 |
| Otp.NoneAcceptedTwice | auth/otp/otp.go:167-173 | a factor is accepted again only after the counter has gone all the way round |
| Otp.HOTP.Digits | auth/otp/otp.go:136-141 | six or eight |
| Otp.HOTP.SetDigits | auth/otp/otp.go:128-134 | nothing but six or eight is taken |
| Otp.HOTP.PasswordAt | auth/otp/otp.go:183-195 | through the scratch buffer, with every slice in range for any digest of at least 20 bytes, the truncated decimal |
| Otp.HOTP.VerifyOTP | auth/otp/otp.go:238-254 | the least matching offset, or -1 exactly if there is none or the length is wrong; for every window, negative ones included |
| Otp.HOTP.Verify | auth/otp/otp.go:167-173 | accepts exactly if a factor of the window matches, and moves the counter just past the least one |
| Otp.HOTP.VerifyAt | auth/otp/otp.go:163-165 | exactly this factor's password |
| Otp.HOTP.VerifyEach | auth/otp/otp.go:167-173 | a sequence of Verify calls accepts the factors of the run |
| Otp.TOTP.Verify | auth/otp/otp.go:275-291 | accepts exactly if a time step at most `window` away, either way, gives the password |

## Left out

- The rest of the framework: HTTP, FastCGI, sockets, templates, sessions, SMTP, images, databases, `router.go`'s host and prefix matchers, `SunnySwitch`, `HasRoute`, controllers and everything that works by reflection.
- Shutdown: the 32-bit wrap of `runners` (2^31 goroutines), panics inside handlers and callbacks, signals, and an entry of `servers` that is already nil when the snapshot is taken; what runs after the WaitGroup has panicked below 0.
- GracefulShutdown: the compare-and-swap on `graceshut` is not a step of its own; the one goroutine it lets start waits for the signal from the beginning.
- Routes: case folding outside ASCII in `strings.ToLower` and `ToUpper`; `hardroute` is looked up a second time under the same key where the extension should be dropped (router/route.go:331), so extensions are never stripped from literal segments, and the model has that.
- OrderedDict.OrderedDict.Sort: sort.Sort is modelled by the swaps it makes; that they put the values in order is its own contract.
- OrderedDict.OrderedDict.SortByKey: likewise.
- OrderedDict.OrderedDict.Transaction: an Update is the Sets it makes, in the order it makes them; RemoveAt is left out, since it may leave the clone malformed.
- OrderedDict: `Remove(value)`, iterators and the readers by value; every operation on a dict after `RemoveAt` of the last key or `Reverse` of two keys or more, whose chain is no longer right.
- List: `Pop`, `Insert` and `Last`, which read or write one slot off; sorting, iteration and the functional operations.
- MessageEncoder.WriteEach: parts with a CR that neither LF nor the end of the part follows; each loses bytes, but a CR LF cut in two adds two, and LossMadeUpFor shows that these can make up for each other.
- MessageEncoder.MessageEncoder.Write: capacity and reallocation of the output buffer are not modelled.
- Base64.EncodeBase64WithNewLine: the library's encoder is modelled by what it writes.
- SplitLastN.StringSplitLastN: invalid UTF-8 under an empty separator is not modelled.
- Configuration: `__include__` and JSON files, nil maps, keys with empty segments, typed getters other than String, slices as values.
- Config.Configuration.Parse: keys are not empty and have no dots, `__key__` names have no dots, and no case has a switch of its own at its top; otherwise the outcome depends on the order in which Go visits a map, or on a map being changed while it is visited.
- Config.Configuration.Update: the maps below the argument are not those below the target, unless it has absorbed the argument, and the argument's keys are not empty and have no dots, since a dotted key reaches into other branches and an empty one means the map itself.
- Config.Configuration.UpdateKey: the same.
- Config.Configuration.UpdateTwice: the same, before the first update.
- Config.Configuration.UpdateAgain: the same.
- Config.Configuration.BranchFinds: names without empty segments; Branch takes an empty one for the map itself if it is last, and for a key if it is not (config/config.go:235-241).
- Config.Configuration.InterfaceAt: dotted keys without empty segments, for that reason.
- Config.Configuration.MakeBranch: the same; it takes every empty segment for the map itself, so that a key set under `.a.b` is not found there again.
- Config.Configuration.Set: the same, and a value that is a map shares none with the tree.
- Config.Configuration.String: dotted keys without empty segments.
- Config.Configuration.ParseInclude: maps without `__include__`, whose keys are not empty and have no dots.
- Config.Configuration.SelectCase: the name under `__key__` has no dot, and no case has a switch of its own at its top.
- Config.Configuration.ReplaceSwitch: the same, with plain keys throughout.
- Config.Configuration.ParseChildren: the same.
- Config.Configuration.ParseSwitch: the same.
- Csrf: that nobody can forge a token; HMAC and AES are arbitrary functions. A key of a wrong size is hashed before the key stream, which is part of the parameter.
- Otp: `Password`, secrets and URIs; constant-time comparison is plain equality.
