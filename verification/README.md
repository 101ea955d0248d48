# Verified models of the Tools programs

This project models seven pieces of the repository and proves what they are for, or exactly how
far they get: the Huffman compressor and decompressor, the arbitrary-precision integer, the
byte-rate limiter of the Go proxy, the cross-thread handler queue, the incremental HTTP request
parser, the binary heap, and the connection's byte streams over its sliding buffer.

Each piece is given twice where the source works by updating state: as functions on values, about
which the theorems are stated, and as methods or classes with the source's loops, proved to do
what those functions say. `dafny verify dfyconfig.toml` checks everything.

| file | what it holds |
|---|---|
| `RateLimiter.dfy` | the limiter's routine, conservation, rate bound and its tightness, no starvation |
| `EventQueue.dfy` | producers, eventfd and loop as interleaved steps; no lost wakeup, bounded wait |
| `HttpRequest.dfy`, `HttpRoundTrip.dfy` | the resumable parser; which inputs may be split anywhere; round trip |
| `BinaryHeap.dfy` | the array heap with holes; runs of operations; when `erase_if` keeps order; timers |
| `Buffer.dfy`, `Connection.dfy` | the sliding buffer; the gather-write queue and its conservation |
| `Digits.dfy`, `Carries.dfy`, `BigIntMul.dfy`, `BigInt.dfy` | base 2^32 numbers: comparison, `Add` and `Sub`, `Mul` and `Power`, parsing and the object |
| `BigIntDiv.dfy`, `BigIntDivWrong.dfy` | `Div`: why it always ends, when it is right, where it goes wrong |
| `HuffmanOptimal.dfy`, `HuffmanBuild.dfy` | the exchange argument; the greedy merge as the code runs it; depth bound |
| `HuffmanCodes.dfy`, `HuffmanPacker.dfy`, `HuffmanDecode.dfy` | key table, block-buffered bit packer, decoder |
| `HuffmanFile.dfy`, `HuffmanPrefix.dfy` | whole files: round trip; no prefix-free code is shorter |
| `HuffmanTail.dfy`, `HuffmanDeep.dfy` | a file that does not come back; files with codes as long as the depth bound allows |
| `Basics.dfy`, `Numbers.dfy` | the types and the few facts of arithmetic that are shared |

Several properties that one would expect turn out not to hold of the code. The model keeps the code
as it is, gives an input that fails, and says for which inputs the property does hold:

* `Add` loses a carry that meets a digit 2^32 - 1 of the addend or just above it, `Sub` a borrow
  out of a zero digit; both are exact if and only if that does not happen (`SumExactIff`,
  `DifferenceExactIff`).
* `Div` ends for every dividend and every divisor but zero, although a round may leave more than it
  found (`RoundDescends`). It is right for every dividend below 2^64, and that is sharp: it divides
  2^64 by one and gets 2^32, and by 2^64 - 1 and gets 2^32, forgetting a borrow 2^32 - 1 times
  (`DivRightBelow64Bits`, `DivGoesWrong`, `SlowDivision`). In every run that forgets fewer than
  2^32 - 1 borrows it is right if and only if every addition and subtraction was
  (`DivRightIffClean`).
* Parsing is exact in base 16 for every string; in any base, if and only if no prefix spells a
  number that modulo 2^64 is below its own last digit; the decimal of 2^64 is one that fails
  (`HexExact`, `ParsedExactIff`, `TwoTo64GoesWrong`).
* The compressed file is read back if and only if the input has two different bytes and its last
  code does not run over the end of an 8192-bit block (`RoundTripIff`), which it can
  (`TailIsLost`); the special route, meant for files of one character, is taken only for files of
  zero bytes, and such a file is read back if and only if the padding happens to be all ones,
  which is sure if and only if its length is a multiple of 8 (`ZerosRoundTripIff`,
  `ZerosComeBackIff`).
* An HTTP request may arrive in any pieces, with the outcome of one call and one that depends on its
  bytes alone, if and only if the last character of its URI is not a `%` still to be decoded, its
  version field is not empty, and no header line that is reached has a blank name before its colon
  and a value behind it (`ChunkingIndependence`). Every other request can be cut so that the parser
  reads bytes outside the range it was given (`FragileSplit`).
* `erase_if` keeps heap order if and only if the moved last element is not below the hole's parent
  (`RemoveAtKeepsOrderIff`); the order of timers is not one a heap can work with
  (`TimersAreNotOrdered`, `EarlierTimerFirstIff`).
* A kernel that takes everything offered empties the write queue if and only if no file slice runs
  past its file and no empty buffer stands last before a file or the end
  (`WillingKernelEmptiesIff`).
* The key field holds every code of a file under 2584 bytes, and that is sharp (`ShortFilesFit`,
  `SixteenBits`).
* Comparing magnitudes is right if and only if lengths are equal, the longer vector reaches beyond
  the shorter one, or the digits they share decide as the lengths did (`BelowRightIff`).
* With a negative limit the rate limiter serves nobody (`EveryoneServedIffLimitNotNegative`).

## Model

| member | source | states |
|---|---|---|
| RateLimiter.RunConserves | go/proxy.go:262-297 | in every run and for every limit, each request that arrived is granted once or pending once, and postponed requests leave in the order they entered |
| RateLimiter.RunRecords | go/proxy.go:262-297 | the arrivals and ticks that the history of a run holds are those of its events, in order |
| RateLimiter.RateBound | go/proxy.go:264-296 | for a positive limit, over every interleaving of arrivals and ticks, the bytes granted plus the seconds saved up times the limit are at most 2n + 1 limits after n ticks |
| RateLimiter.RateBoundIsTight | go/proxy.go:272-285 | for every n there is a run of n + 2 ticks that grants (2n + 3) limits less n + 1 bytes, so twice the limit cannot be improved |
| RateLimiter.NoStarvation | go/proxy.go:267-288 | once a run has ticked the sum of max(1, ceil(bytes / limit)) over the first j pending requests, these have all left the list, next and in order, however many requests still arrive |
| RateLimiter.DrainProgress | go/proxy.go:267-288 | one tick releases the first j pending requests or lowers the number of ticks they still need by one, saved seconds counted |
| RateLimiter.DrainExact | go/proxy.go:267-288 | a tick lets through exactly the longest prefix of requests that each fit what is left of the second and what was saved up, resets the savings with the first one, and saves a second only for a head that did not fit |
| RateLimiter.AtOnceIff | go/proxy.go:289-295 | in every run, under every limit, a request goes through at once if and only if there is no limit or it fits under the limit with what the last tick and everything since let through |
| RateLimiter.NothingPostponedIff | go/proxy.go:289-295 | with nothing pending and a positive limit, a run postpones nothing if and only if less than a limit arrives between any two ticks, and then everything is granted in order of arrival |
| RateLimiter.NonPositiveLimit | go/proxy.go:289-295 | limit zero postpones nothing ever, a negative limit grants nothing ever |
| RateLimiter.EveryoneServedIffLimitNotNegative | go/proxy.go:262-297 | every run can be continued until nothing is pending if and only if the limit is not negative |
| RateLimiter.Limiter.OnTick | go/proxy.go:264-288 | the tick's loop releases the requests, and leaves the counters and the list, that the drain function describes |
| RateLimiter.Limiter.OnRequest | go/proxy.go:289-295 | a request goes through at once or is queued last, as the step function describes |
| EventQueues.StepKeepsInv | liby_cpp/EventQueue.cpp:50-81 | every step of every thread has a successor and keeps the invariant: work in the list implies a set eventfd, a draining loop or a producer about to wake it; started handlers plus the list are the pushed ones |
| EventQueues.NoLostWakeup | liby_cpp/Poller.cpp:78-81 | in every run no wakeup is lost, the handlers started followed by the queued ones are those that the push steps of all threads and handlers handed over, in order, the one that runs is the one started last, and nobody takes from an empty list |
| EventQueues.NeverStuck | liby_cpp/EventQueue.cpp:53-66 | while a handler is queued the loop can step, unless a handler or a producer still has its wakeup to do |
| EventQueues.Quiescent | liby_cpp/EventQueue.cpp:53-66 | when the loop sleeps on an empty eventfd and no producer is between push and wakeup, everything that the steps handed over has been started, in order |
| EventQueues.BoundedWait | liby_cpp/EventQueue.cpp:62-65 | the handler at position p has been started, after exactly those ahead of it, once the loop has taken 3p steps and at most four more, whatever the other threads do |
| EventQueues.BlockingQueue.PushBack | liby_cpp/BlockingQueue.h:34-37 | appends at the end |
| EventQueues.BlockingQueue.PopFront | liby_cpp/BlockingQueue.h:39-42 | returns the first element and leaves the others |
| EventQueues.CallbackLeads | liby_cpp/EventQueue.cpp:53-66 | undisturbed, the loop's steps poll, read, then test, pop and return for each handler, then test, lead from any waiting state with a set eventfd to one where everything queued has been started in order |
| EventQueues.HandOverLeads | liby_cpp/Poller.cpp:78-81 | undisturbed, a producer's two steps queue its handler last and set the eventfd |
| EventQueues.HandlerHandsOver | liby_cpp/Poller.cpp:78-81 | a handler's two steps queue the new handler last and set the eventfd, and the handler goes on |
| EventQueues.CounterCounts | liby_cpp/EventQueue.cpp:70-77 | between two reads the eventfd counts the wakeups of all threads, up to what it can hold |
| EventQueues.FirstLook | liby_cpp/EventQueue.cpp:16-16 | before the first read it holds 1000 more |
| EventQueues.ReadResets | liby_cpp/EventQueue.cpp:57-60 | a read empties it and leads on to the list, and one that finds nothing leads back |
| EventQueues.EventQueue.RunEventHandler | liby_cpp/Poller.cpp:78-81 | pushes and wakes, and so takes exactly the producer's two steps |
| EventQueues.EventQueue.OnRead | liby_cpp/EventQueue.cpp:53-66 | undisturbed, the callback resets the eventfd and runs the whole list in order, or does nothing if the eventfd was empty, and takes exactly the steps of the loop that do so |
| EventQueues.EventQueue.Wake | liby_cpp/EventQueue.cpp:70-77 | the counter goes up by one unless it is full |
| HttpRequests.LoopUses | liby_cpp/http/HttpServer.cpp:47-49 | the byte count grows by at most the input's length, and what is left is the input behind the bytes counted |
| HttpRequests.Resume | liby_cpp/http/Request.cpp:40-97 | stopping a call after any prefix and going on with the unused bytes gives the request, the unused rest and the byte count of one call, unless some step depends on bytes around its piece |
| HttpRequests.ChunkingIndependence | liby_cpp/http/HttpServer.cpp:43-49 | every split of an input into chunks gives the status, method, URI, query, version, headers and byte count of one call, and none of them reads outside what it was given, if and only if the input is not fragile |
| HttpRequests.FragileSplit | liby_cpp/http/Request.cpp:56-90 | every fragile input can be cut in two so that the parser reads outside the range it was given |
| HttpRequests.OneCallOutsideIff | liby_cpp/http/Request.cpp:168-174 | one call on the whole input reads outside it if and only if the input ends with the space behind a URI that ends in an undecoded `%`, so that on every other fragile input a cut changes the outcome |
| HttpRequests.FragileMeansLooksOutside | liby_cpp/http/Request.cpp:136-191 | the test on the input, which a caller can make, says exactly whether some step of the run depends on bytes around its piece: a `%` that ends the URI, an empty version, a blank header name |
| HttpRequests.FragileExamples | liby_cpp/http/Request.cpp:145-174 | a fragile input of each of the three kinds |
| HttpRequests.HeaderScanned | liby_cpp/http/Request.cpp:145-153 | what the two scans over the whole input find decides the header step as the function on the line says: a stored header, the end of the process, or a read before the input |
| HttpRequests.FindFirstOf | liby_cpp/http/Request.cpp:29-38 | the first position of the character from the start on, or the end |
| HttpRequests.RequestParser.ParseInput | liby_cpp/http/Request.cpp:40-97 | one call, with its falling-through switch, changes the object as the loop function says, the end of the process and reads outside the range told apart |
| HttpRequests.RequestParser.ParseURI | liby_cpp/http/Request.cpp:157-191 | decodes escapes, cuts at the last question mark, and takes C strings, as the URI function says |
| HttpRequests.RequestParser.ParseHeader | liby_cpp/http/Request.cpp:136-155 | splits a header line at its colon and scans both ways over the whole input, as the header function says, for a line that begins the input and for one that does not |
| HttpRequests.RequestParser.ParseHttpVersion | liby_cpp/http/Request.cpp:114-134 | accepts exactly the two version names |
| HttpRequests.RequestParser.ParseMethod | liby_cpp/http/Request.cpp:99-112 | sets the method that the table of names gives, or keeps the old one and refuses |
| HttpRoundTrip.DecodeSpell | liby_cpp/http/Request.cpp:168-179 | decoding undoes percent-encoding, whichever bytes were escaped and whatever surrounds them |
| HttpRoundTrip.HexRoundTrip | liby_cpp/http/Request.cpp:13-28 | the two hexadecimal digits of every byte, in either case, are read back as that byte |
| HttpRoundTrip.HexOfAnything | liby_cpp/http/Request.cpp:13-28 | any two characters, digits or not, make the byte that the source's arithmetic with its bitwise or makes |
| HttpRoundTrip.CutEscape | liby_cpp/http/Request.cpp:168-172 | an escape cut short by the end of the URI takes its digits from the space and what follows |
| HttpRoundTrip.ReadAnyTarget | liby_cpp/http/Request.cpp:157-186 | for every target, question marks and NULs anywhere, the URI is the text before the first of either and the query the text between the last question mark and the next NUL |
| HttpRoundTrip.MethodRefusedIff | liby_cpp/http/Request.cpp:99-112 | a request ends with InvalidMethod, nothing read and nothing counted, if and only if its method is none of the four |
| HttpRoundTrip.VersionRefusedIff | liby_cpp/http/Request.cpp:114-134 | behind any method and target it ends with InvalidVersion, those two counted and read, if and only if the line is neither version name, with or without a carriage return |
| HttpRoundTrip.NoColonRefused | liby_cpp/http/Request.cpp:139-143 | a header line without a colon ends with InvalidHeader and is not counted |
| HttpRoundTrip.BlankEndsProcess | liby_cpp/http/Request.cpp:145-152 | one with nothing to be seen before its colon, not being the first of the call, or behind it, ends the process |
| HttpRoundTrip.ReadEnd | liby_cpp/http/Request.cpp:80-84 | a line of at most one character ends the headers, and what follows is left alone |
| HttpRoundTrip.ReadHeader | liby_cpp/http/Request.cpp:145-153 | every other line is stored, without the white space around its colon and its carriage return |
| HttpRoundTrip.SpacesAre | liby_cpp/http/Request.cpp:147-150 | white space is the blank and the characters 9 to 13 |
| HttpRoundTrip.RoundTrip | liby_cpp/http/Request.cpp:40-97 | every method, every path and query in every spelling, both versions and every list of well-formed headers, with any white space around colons and with or without carriage returns, come back exactly, every byte is used, and none behind the request |
| HttpRoundTrip.RoundTripInPieces | liby_cpp/http/HttpServer.cpp:43-49 | and so they do in whatever pieces the request arrives |
| BinaryHeaps.InsertCorrect | liby_cpp/BinaryHeap.h:42-50 | under a strict weak order, keeps heap order and adds exactly the argument |
| BinaryHeaps.DeleteMinCorrect | liby_cpp/BinaryHeap.h:69-76 | keeps heap order and removes exactly the root, which is a smallest element |
| BinaryHeaps.RemoveAtContents | liby_cpp/BinaryHeap.h:64-66 | taking out any slot, in any order whatever, removes exactly the element in it |
| BinaryHeaps.RemoveAtKeepsOrderIff | liby_cpp/BinaryHeap.h:52-67 | removing slot i keeps heap order if and only if it is the root, the last slot, or the last element is not below the parent of i |
| BinaryHeaps.RemoveAtCanBreakOrder | liby_cpp/BinaryHeap.h:64-65 | a heap of six that `erase_if` leaves out of order |
| BinaryHeaps.EraseCorrect | liby_cpp/BinaryHeap.h:52-67 | if slot k holds the first match in array order, `erase_if` removes exactly its element, under any order whatever, and keeps heap order if and only if the last element may fill slot k |
| BinaryHeaps.EraseNothing | liby_cpp/BinaryHeap.h:61-63 | without a match the heap is unchanged |
| BinaryHeaps.FirstMatch | liby_cpp/BinaryHeap.h:55-60 | the scan stops at the first slot that matches, and behind the last if none does |
| BinaryHeaps.FromItemsCorrect | liby_cpp/BinaryHeap.h:97-100 | any items become a heap, in order, of exactly those items |
| BinaryHeaps.RunContents | liby_cpp/BinaryHeap.h:42-76 | in every run of insertions, deletions and erasures, from any heap and under any order whatever, the contents and what has left are what was there and what was put in |
| BinaryHeaps.AnyRun | liby_cpp/BinaryHeap.h:42-76 | from any items and under any sequence of insertions, deletions and erasures whose place may be filled: heap order, contents equal to what was put in less what has left, and a smallest element next |
| BinaryHeaps.StaysBlank | liby_cpp/BinaryHeap.h:66-75 | slots behind the last element stay blank under insertion and removal |
| BinaryHeaps.StartsBlank | liby_cpp/BinaryHeap.h:29-34 | and are blank after the build |
| BinaryHeaps.InsertGrows | liby_cpp/BinaryHeap.h:43-44 | a full vector doubles, any other keeps its length |
| BinaryHeaps.DrainSorts | liby_cpp/BinaryHeap.h:69-76 | deleting the minimum until nothing is left gives exactly the contents, sorted |
| BinaryHeaps.TimersAreNotOrdered | liby_cpp/TimerQueue.h:34-36 | the order of timers is not a strict weak order |
| BinaryHeaps.EarlierTimerFirstIff | liby_cpp/TimerQueue.h:34-36 | of two timers inserted one after the other the earlier is at the root exactly when it was not the second with an id at least the first one's |
| BinaryHeaps.BinaryHeap.FromVector | liby_cpp/BinaryHeap.h:29-34 | copies and builds, as the function on items says |
| BinaryHeaps.BinaryHeap.PercolateDown | liby_cpp/BinaryHeap.h:102-117 | the hole loop leaves what sinking the element leaves |
| BinaryHeaps.BinaryHeap.InsertElement | liby_cpp/BinaryHeap.h:42-50 | grows if full, moves the hole up, and leaves what the insertion function says |
| BinaryHeaps.BinaryHeap.EraseIf | liby_cpp/BinaryHeap.h:52-67 | removes the first match in array order, or changes nothing |
| BinaryHeaps.BinaryHeap.DeleteMin | liby_cpp/BinaryHeap.h:69-76 | removes slot 1 as the removal function says |
| Buffers.Doubled | liby_cpp/Buffer.cpp:201-203 | the doubled size is at least the goal, and less than twice the goal if anything was doubled |
| Buffers.DoubledIsFirst | liby_cpp/Buffer.cpp:201-203 | it is the capacity times a power of two, and half of it would not do |
| Buffers.DoublingEndsIff | liby_cpp/Buffer.cpp:201-203 | some number of doublings reaches the goal if and only if the capacity is positive |
| Buffers.Buffer.constructor | liby_cpp/Buffer.cpp:8-12 | an empty buffer of the given capacity |
| Buffers.Buffer.FromBytes | liby_cpp/Buffer.cpp:16-22 | a full buffer of exactly the bytes |
| Buffers.Buffer.AppendInPlace | liby_cpp/Buffer.cpp:95-98 | the content grows by the bytes that already stand behind it |
| Buffers.Buffer.Append | liby_cpp/Buffer.cpp:102-113 | through each of the three paths the content grows by exactly the bytes, the indices stay in range, and the block grows only if content and bytes do not fit in it |
| Buffers.Buffer.SafeAppend | liby_cpp/Buffer.cpp:123-126 | copies behind the content |
| Buffers.Buffer.Forward | liby_cpp/Buffer.cpp:149-157 | slides the content to the start without changing it |
| Buffers.Buffer.Reserve | liby_cpp/Buffer.cpp:198-205 | the content stays; the capacity stays or becomes the first doubling that reaches the goal |
| Buffers.Buffer.Resize | liby_cpp/Buffer.cpp:207-215 | the content stays; a smaller size is ignored |
| Buffers.Buffer.Retrieve | liby_cpp/Buffer.cpp:219-232 | drops the given number of bytes from the front, or everything |
| Buffers.Buffer.TryRead | liby_cpp/Connection.cpp:234-251 | for every count the kernel returns, spare block included, the content grows by exactly the bytes read |
| Connections.WriteConserves | liby_cpp/Connection.cpp:253-317 | one call, under any kernel answers, sends a prefix of what is queued and leaves exactly the rest |
| Connections.WriteReturns | liby_cpp/Connection.cpp:253-317 | for every queue and all answers, a call that empties the queue returns the bytes taken from buffers, files not counted; one that leaves tasks returns 0 exactly when its last system call was a gathered write that wrote nothing without failing, and -1 otherwise |
| Connections.WholeBuffersGoOn | liby_cpp/Connection.cpp:299-306 | a gathered write that ends with a buffer removes exactly the buffers written and the call goes on, even when the kernel took less than offered |
| Connections.CutBufferStops | liby_cpp/Connection.cpp:306-309 | one that ends inside a buffer leaves the rest of it in front and ends the call with -1 |
| Connections.FileGoes | liby_cpp/Connection.cpp:257-270 | a file slice is done when all that was asked for has gone, and otherwise stays with its offset moved on and ends the call with -1 |
| Connections.NothingGoes | liby_cpp/Connection.cpp:261-313 | an error and a gathered write of nothing change nothing |
| Connections.GatheredIs | liby_cpp/Connection.cpp:287-297 | what is gathered are all buffers up to the first file |
| Connections.SliceIs | liby_cpp/Connection.cpp:259-260 | the bytes of a slice, one by one, and their number |
| Connections.StreamConservation | liby_cpp/Connection.cpp:253-317 | over every run of sends, file sends and writes, under any kernel answers, the bytes on the wire followed by what is queued are what the sends of the run handed over, in order |
| Connections.WillingKernelEmptiesIff | liby_cpp/Connection.cpp:255-315 | under a kernel that takes everything offered, one call empties the queue if and only if the queue is finishable |
| Connections.EmptySendIsStuck | liby_cpp/Connection.cpp:298-313 | an empty buffer alone in the queue stays there through any number of writes under any answers, and a write the kernel accepts returns 0 |
| Connections.LaterBytesFreeIt | liby_cpp/Connection.cpp:301-306 | bytes sent behind it that go out take it along |
| Connections.Connection.SendBytes | liby_cpp/Connection.cpp:140-149 | queues the bytes last |
| Connections.Connection.SendFileSlice | liby_cpp/Connection.cpp:216-228 | queues the slice last |
| Connections.Connection.TryWritAll | liby_cpp/Connection.cpp:253-317 | leaves the queue, the wire and the returned value that the write function says, for every sequence of answers |
| Connections.Connection.PopFront | liby_cpp/Connection.cpp:301-310 | the inner loop pops what was written in full and trims the buffer that was cut |
| Digits.CompareNoSign | bigint/BigInt.h:249-262 | for all vectors, the answer that lengths and then the highest differing digits give |
| Digits.BelowRightIff | bigint/BigInt.h:249-262 | for all vectors, that answer is right if and only if the lengths are equal, or a digit of the longer one beyond the shorter one is not zero, or the digits in the shorter one's places decide for the answer that the lengths gave |
| Digits.BelowCorrect | bigint/BigInt.h:249-262 | so it is right for normal vectors |
| Digits.CompareNeedsNormal | bigint/BigInt.h:251-254 | with a leading zero it takes 1 for less than 0 |
| Digits.ShiftedVal | bigint/BigInt.h:270-276 | shifting by k digits multiplies by 2^(32 k) |
| Digits.ValInjective | bigint/BigInt.h:263-266 | normal vectors that denote the same number are the same vector, so comparing vectors compares numbers |
| Carries.SumExactIff | bigint/BigInt.h:110-141 | `Add` never exceeds the true sum, and equals it if and only if no carry meets an addend digit 2^32 - 1 and none leaves the addend into a digit 2^32 - 1 |
| Carries.AddGoesWrong | bigint/BigInt.h:130-138 | 2^64 - 1 plus one comes out as 2^32 |
| Carries.DifferenceExactIff | bigint/BigInt.h:142-170 | for a minuend at least as large, `Sub` leaves a normal vector, too large by exactly what the forgotten borrows are worth, and exact if and only if no borrow is taken from a zero digit within the subtrahend's length |
| Carries.ExcessCounts | bigint/BigInt.h:145-154 | what the forgotten borrows are worth is their number modulo 2^32 - 1 |
| Carries.SubGoesWrong | bigint/BigInt.h:145-154 | 2^64 less 2^32 + 1 comes out larger than 2^64 |
| BigIntMul.FitsInWord | bigint/BigInt.h:204-209 | a digit product plus carry plus cell is below 2^64, and its carry is a digit |
| BigIntMul.AddScaled | bigint/BigInt.h:203-214 | the inner loop adds exactly digit times multiplicand, shifted, its last carry landing on a zero cell |
| BigIntMul.MulDigits | bigint/BigInt.h:198-218 | for all non-empty vectors the result denotes the exact product, and at most one digit is popped |
| BigIntMul.ProductNormalIff | bigint/BigInt.h:216-217 | the product of normal vectors is normal if and only if neither is zero or both are single digits |
| BigIntMul.TestBitCorrect | bigint/BigInt.h:379-388 | bit i of the vector is bit i of the number, for every i |
| BigIntMul.GetTotalBits | bigint/BigInt.h:369-377 | the number is below 2 to the result, and for a normal positive number at least half of that |
| BigIntMul.PowerDigits | bigint/BigInt.h:219-235 | the base to the exponent, for every base and every exponent, zero included |
| Carries.AddDigits | bigint/BigInt.h:110-141 | the two loops of `Add` leave the digits that the sum function says |
| Carries.SubDigits | bigint/BigInt.h:142-170 | the three loops of `Sub` leave the digits that the difference function says |
| BigIntDiv.EstimateSound | bigint/BigInt.h:174-186 | for normal u >= v > 0 the estimate is formed within 64 bits, is between 1 and 2^32 - 1, and what it subtracts is positive and at most u |
| BigIntDiv.IdealDivCorrect | bigint/BigInt.h:171-197 | with exact addition and subtraction the loop ends with quotient and remainder, for every dividend and every divisor but zero, early break included |
| BigIntDiv.RoundDescends | bigint/BigInt.h:173-195 | for every dividend and divisor a round as written lowers length, leading digit, the rank of the second digit or the room below it, in this order, so that the loop ends even where borrows are forgotten |
| BigIntDiv.SecondDigitIsFull | bigint/BigInt.h:182-186 | if an estimate from two digits takes nothing from the leading digit, the second digit was 2^32 - 1 and all of it is taken |
| BigIntDiv.DivBooks | bigint/BigInt.h:171-197 | over every run, quotient times divisor plus remainder is the dividend plus what forgotten borrows gained less what lost carries lost, and the remainder is below the divisor |
| BigIntDiv.DivRightIffBalanced | bigint/BigInt.h:171-197 | quotient and remainder are right if and only if gains and losses balance |
| BigIntDiv.DivRightIffClean | bigint/BigInt.h:171-197 | an exact run is right; a right run is exact or forgot a positive multiple of 2^32 - 1 borrows; with fewer forgotten, right if and only if exact |
| BigIntDiv.DivRightBelow64Bits | bigint/BigInt.h:171-197 | quotient and remainder are right for every dividend below 2^64 and every divisor but zero |
| BigIntDivWrong.DivGoesWrong | bigint/BigInt.h:177-194 | 2^64 divided by one comes out as 2^32 |
| BigIntDivWrong.SlowDivision | bigint/BigInt.h:182-194 | 2^64 divided by 2^64 - 1 forgets 2^32 - 1 borrows, one a round, and comes out as 2^32, remainder 2^32 |
| BigIntDiv.DivRound | bigint/BigInt.h:182-194 | one pass of the loop computes the estimate, the product, the sum and the difference of a round |
| BigIntDiv.DivDigits | bigint/BigInt.h:171-197 | the loop ends for every dividend and every divisor but zero, and leaves what the round function, iterated, says |
| BigInts.ParsedExactIff | bigint/BigInt.h:56-71 | in every base the result is normal, never too large, and the number spelled if and only if no prefix spells a number that modulo 2^64 is below its last digit |
| BigInts.HexExact | bigint/BigInt.h:40-72 | strings of any length in base 16 give the exact number in normal form |
| BigInts.DigitsReadBack | bigint/BigInt.h:60-68 | each of the sixteen digits, in upper and lower case, has its value |
| BigInts.OtherCharacters | bigint/BigInt.h:66-68 | every other character counts as zero |
| BigInts.HexRoundTrip | bigint/BigInt.h:40-72 | every number written in base 16, each digit in either case, is read back as exactly its digits |
| BigInts.WrittenReadBackIff | bigint/BigInt.h:56-71 | in every base from 2 to 16 it is read back if and only if no prefix wraps |
| BigInts.DecimalGoesWrong | bigint/BigInt.h:56-71 | every decimal that spells 2^64 with a last digit 6 gives less |
| BigInts.TwoTo64GoesWrong | bigint/BigInt.h:56-71 | the decimal 18446744073709551616 is one |
| BigInts.ParseDigits | bigint/BigInt.h:56-71 | the loop of `Mul` and `Add` leaves what the parsing function says |
| BigInts.BigInt.Parse | bigint/BigInt.h:40-72 | sign and digits for every text, empty ones and lone signs included |
| BigInts.BigInt.Add | bigint/BigInt.h:110-141 | replaces the digits by the sum function's |
| BigInts.BigInt.Sub | bigint/BigInt.h:142-170 | replaces the digits by the difference function's |
| BigInts.BigInt.Mul | bigint/BigInt.h:198-218 | the magnitude is the product of the magnitudes |
| BigInts.BigInt.Power | bigint/BigInt.h:219-235 | the magnitude is the power; the sign is lost |
| BigInts.BigInt.Div | bigint/BigInt.h:171-197 | leaves the loop's quotient here and its remainder in the argument, with the signs swapped |
| HuffmanOptimal.MergeLightest | HuffmanCompress/HuffmanCompress.c:233-250 | however a tree arranges its weights, one over the weights with two lightest merged, that merge paid for, costs no more |
| HuffmanOptimal.PaidIsLeast | HuffmanCompress/HuffmanCompress.c:233-250 | when everything is merged, what the merges paid is the least cost of any tree over these weights |
| HuffmanBuild.CountNumbers | HuffmanCompress/HuffmanCompress.c:85-96 | slot b holds byte b and its exact number of occurrences, and the counts add up to the length |
| HuffmanBuild.Qsort | HuffmanCompress/HuffmanCompress.c:171-176 | the first n items become some descending rearrangement of themselves, the others stay |
| HuffmanBuild.MergeKeepsGreedy | HuffmanCompress/HuffmanCompress.c:239-247 | merging the last two of a descending forest keeps its weight and symbols, its optimality, and that no tree is lighter than a child of another |
| HuffmanBuild.MergePass | HuffmanCompress/HuffmanCompress.c:234-250 | after one pass over the array, skipping items that do not occur, the items are sorted, and whatever may be built from them may be built from the first ones |
| HuffmanBuild.GreedyIsOptimal | HuffmanCompress/HuffmanCompress.c:224-250 | for every non-empty input, every tree that sorting with any tie-breaking and merging the last two may build has exactly the occurring bytes with their counts, weighs the length of the input, and costs no more than any tree over the same symbols |
| HuffmanBuild.BuildTree | HuffmanCompress/HuffmanCompress.c:224-250 | the loops over the 256 items leave one of these trees |
| HuffmanBuild.LastOneIsOptimal | HuffmanCompress/HuffmanCompress.c:230-250 | the tree left at the end costs no more than any tree over the same symbols |
| HuffmanBuild.HeightNeedsWeight | HuffmanCompress/HuffmanCompress.c:233-250 | a tree of height h so built weighs at least Fib(h + 2) |
| HuffmanBuild.DepthBound | HuffmanCompress/HuffmanCompress.c:135-135 | a code of length d needs a file of Fib(d + 2) bytes, so files under 2584 bytes have codes of at most 15 bits |
| HuffmanDeep.DepthBoundIsTight | HuffmanCompress/HuffmanCompress.c:233-250 | for every d from 1 to 255 there is a file of exactly Fib(d + 2) bytes for which the compressor may build a tree of height d |
| HuffmanDeep.SixteenBits | HuffmanCompress/HuffmanCompress.c:20-25 | some file of 2584 bytes may get a code of 16 bits, which the key field does not hold |
| HuffmanPrefix.CodesPrefixFree | HuffmanCompress/HuffmanCompress.c:127-169 | no code of the compressor starts another |
| HuffmanPrefix.PackedLength | HuffmanCompress/HuffmanCompress.c:295-322 | the bits of all codes in a row are as many as the tree costs |
| HuffmanPrefix.NoShorterPrefixCode | HuffmanCompress/HuffmanCompress.c:230-258 | for every input, every tree the compressor may build and every prefix-free code of the occurring bytes, the compressor needs no more bits |
| HuffmanCodes.FillField | HuffmanCompress/HuffmanCompress.c:135-148 | the loops fill the field with 01 and 10 per step and 00 behind the end |
| HuffmanCodes.Encoder.DoHuffman | HuffmanCompress/HuffmanCompress.c:127-169 | appends exactly the keys of the subtree's leaves to the key buffer, records their codes, counts them, and restores the path |
| HuffmanCodes.ReadField | HuffmanCompress/HuffmanDecompress.c:114-146 | reading a written field, wherever it stands, gives back the code |
| HuffmanCodes.ReadSpelt | HuffmanCompress/HuffmanDecompress.c:114-146 | pairs 01 and 10 ended by 00 or by 11 are read as the code they spell |
| HuffmanCodes.ReadKeysBack | HuffmanCompress/HuffmanDecompress.c:107-150 | reading the keys written for any entries grows what the entries themselves grow and consumes exactly the bytes written |
| HuffmanCodes.HuffmanBuildTree | HuffmanCompress/HuffmanDecompress.c:90-153 | the two loops grow the tree and advance the offset as the key-reading function says |
| HuffmanDecode.AddSubtree | HuffmanCompress/HuffmanDecompress.c:126-145 | adding the entries of a subtree plants exactly that subtree and disturbs nothing else |
| HuffmanDecode.KeyTableRoundTrip | HuffmanCompress/HuffmanDecompress.c:90-153 | for every tree and whatever follows its keys, exactly the bytes written are consumed and exactly that tree is grown, only leaves flagged |
| HuffmanPacker.ToBitsBack | HuffmanCompress/HuffmanCompress.c:178-189 | the bits of the packed number are the bits packed |
| HuffmanPacker.PackBlock | HuffmanCompress/HuffmanCompress.c:302-303 | the bytes of a block, unpacked, are the block |
| HuffmanPacker.FillBlock | HuffmanCompress/HuffmanCompress.c:298-308 | a code that fills the block: blocks written plus what is in the block remain all bits so far |
| HuffmanPacker.PackAll | HuffmanCompress/HuffmanCompress.c:290-322 | the data section is all codes in a row padded to a byte, or, if the last code runs over a block, the whole blocks only |
| HuffmanDecode.NeverMissing | HuffmanCompress/HuffmanDecompress.c:247-262 | in a tree of at least two leaves no bits at all lead to a missing child |
| HuffmanDecode.WalkFlat | HuffmanCompress/HuffmanDecompress.c:247-262 | walking all codes in a row puts out the input and ends at the root |
| HuffmanDecode.DecodeByWalk | HuffmanCompress/HuffmanDecompress.c:242-264 | the byte-wise loop puts out a prefix of what the walk over all bits puts out, at most seven bytes too many, or reads past the data |
| HuffmanDecode.DecodeData | HuffmanCompress/HuffmanDecompress.c:242-264 | the loops compute the decoding function |
| HuffmanDecode.WalkByte | HuffmanCompress/HuffmanDecompress.c:247-262 | the eight steps are the walk over the byte's bits, most significant first |
| HuffmanFile.KeysFitBuffer | HuffmanCompress/HuffmanCompress.c:11-12 | with codes of at most 15 bits the keys take at most 1280 bytes of the 4096 |
| HuffmanFile.ShortFilesFit | HuffmanCompress/HuffmanCompress.c:20-25 | every file under 2584 bytes has keys that fit |
| HuffmanFile.Compress | HuffmanCompress/HuffmanCompress.c:224-322 | writes a file that is the compressed form of the input, for some tie-breaking and some padding |
| HuffmanFile.Decompress | HuffmanCompress/HuffmanDecompress.c:234-266 | writes what the decompression function says |
| HuffmanFile.RoundTripIff | HuffmanCompress/HuffmanDecompress.c:234-266 | for every compressed form, under every tie-breaking and padding, decompressing gives the input back if and only if the tree has two leaves and the last code does not run over a block |
| HuffmanTail.TailIsLost | HuffmanCompress/HuffmanCompress.c:298-308 | 8189 times the byte 1, then 2 and 3: a tree the compressor may build, a file it then writes, and the input does not come back |
| HuffmanFile.NodeIffTwoBytes | HuffmanCompress/HuffmanCompress.c:226-228 | the tree has two leaves if and only if the input has two different bytes |
| HuffmanFile.ZerosRoundTripIff | HuffmanCompress/HuffmanCompress.c:257-270 | a file of zero bytes comes back if and only if the padding is all ones |
| HuffmanFile.ZerosComeBackIff | HuffmanCompress/HuffmanCompress.c:315-319 | it comes back whatever the padding if and only if its length is a multiple of 8 |

## Left out

- Sockets, epoll, poll, select and kqueue wrappers, connection set-up, signals, logging and printing are foreign calls; the kernel's answers to `readv`, `writev` and `sendfile` are parameters.
- chat, echo, time_server, tcpping, killGWX, the small Go and Node servers and the boost::asio chat are thin network programs.
- uthread, the C lists and tasks, ysplit and the C `http_parser` are about context switching and memory lifetime.
- SOCKS handshakes are field extraction around blocking reads. The second copy of the rate limiter in go/all.go is the same code.
- The clock, the Go channels and the order in which `select` picks a case are the sequence of events of a run.
- TimerQueue beyond its order; the heap is generic in its order.
- BigInt `toString`, signed `Compare`, `%=`, `ModPow`, the shifts to the right, the operators and the integer constructors for more than one digit.
- Buffer `prepend`, `backward`, `shrink`, `forward` with an offset, and the accessors that copy into strings and vectors.
- Connection `writBytes_` (not kept on partial writes, so nothing is conserved about it), callbacks, `destroy`, and the case of a connection without a read buffer, where `send` does nothing.
- Integer widths of sizes, offsets and counts (`int`, `off_t`, `uint32_t`, `long`) are unbounded here; digits, carries and 64-bit products of BigInt and the eventfd counter are modelled at their width.
- Allocation failure, and with it the status InvalidURI, does not happen.
- The struct layout of the compressed file's header and its magic word; the header is its two numbers.
- `sprintf` with overlapping arguments and the shift of 1 into the sign bit in `TestBit` are taken to do what they do on common machines.
- EventQueues.BlockingQueue.Empty: reads the list without the lock in the source; here it is one atomic step.
- EventQueues.EventQueue.OnRead: states the callback without interference, as a run of the steps; interference is what the step theorems are about.
- BinaryHeaps.BinaryHeap.InsertElement: requires a vector with its unused slot 0, which `clear()` and capacity 0 take away; the source then writes outside the vector.
- BinaryHeaps.BinaryHeap.DeleteMin: requires a non-empty heap; the source ends the process otherwise. The overload that returns the element is the same without blanking the last slot.
- HttpRequests.RequestParser.ParseInput: gives statuses that the source does not have, Terminated to exceptions that end the process and Outside to reads outside the given range whose result decides what happens; what such a read would find is not modelled. A blank value reads behind its line, but ends the process whatever is there.
- HttpRoundTrip.RoundTrip: a path or query that contains NUL or a question mark, escaped or not, does not come back, since the source stores the text as C strings and cuts at the last question mark; what it becomes is ReadAnyTarget.
- Buffers.Buffer.Append: requires a positive capacity and some bytes, as the doubling loop and the source's assertion do.
- Buffers.Buffer.CopyInto: copies from a sequence, so that overlap in `memmove` is not modelled.
- Connections.Connection.SendBytes: a task holds its bytes as a value; the buffer swapped or moved into the queue is not shared.
- Connections.Connection.SendFileSlice: the file does not change while it is queued.
- BigInts.BigInt.Mul: requires another object, as does Power; the source clears its own digits before reading the argument's.
- BigIntDiv.DivRightIffClean: leaves open whether a run that forgets 2^32 - 1 borrows or more can be right by losses that cancel.
- BigIntDiv.DivDigits: requires normal vectors and a divisor that is not zero; dividing a positive number by zero, the source subtracts nothing for ever.
- Carries.SubDigits: requires a subtrahend that is not longer; the source reads outside the vector otherwise.
- HuffmanBuild.Qsort: sorts in one way, but promises only some descending order, and nothing else is used.
- HuffmanBuild.BuildTree: an item merged from two keeps its count as the sum of its children's; the source stores it.
- HuffmanCodes.HuffmanBuildTree: the decompressor's items are a map from paths to items, which leaves out the pointers; a read past the input is None.
- HuffmanDecode.DecodeData: the output grows as needed; the source writes up to seven bytes behind its buffer.
- HuffmanFile.Compress: requires that every tree the merging may build has codes of at most 15 bits, since longer ones are written outside the key field; the empty file is refused by the source.
