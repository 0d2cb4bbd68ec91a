# Verified models of the Gold base library

A Dafny 4.11 project about a port of the Go 1.13 base library. It models the parts whose
correctness is hard to see from the code, and proves what they are for. `dafny verify
dfyconfig.toml` checks everything.

**Protocols as step systems.** `Pipe` and `PipeCalls` (io.Pipe), `ContextTree`, `ContextErrors`
and `ContextTimers` (the cancellation tree, its errors and its timers) and `Dial` (the Happy
Eyeballs race of section 4 of RFC 6555). A state holds any number of calls or goroutines, each
with the place it has reached; an action is one atomic step of the source. Claims are about
every reachable state or every run, that is, every interleaving.

**Buffers over an adversary.** `Reader`, `Writer` and `Scanner` (package bufio) and
`RuneReader` (the push-back reader of fmt.Fscan) are classes with the source's fields, over an
underlying reader or writer that picks chunk sizes, empty reads and errors as it likes
(`Source`, `Sink`, `Feed`). A ghost field records the plain byte stream, and every method says
what it moves from the stream to the caller.

**Printers and parsers.** `MediaType` (section 5.1 of RFC 2045, sections 4 and 7 of RFC 2231),
`EncodedWord` (sections 2 and 5 of RFC 2047), `IpText` (section 2.2 of RFC 4291, section 4.2 of
RFC 5952) and `Html` (character references, rewritten in place). Each loop over an array or a
builder is a method proved against a recursive function; the round trips are lemmas about the
functions. A printer uses one spelling of many, so `MediaSyntax`, `HeaderWords`, `IpSyntax` and
`HtmlReferences` build texts from the grammar, in the other spellings too, and prove what the
parsers make of them.

**Fast forms and arithmetic.** `Search` (Rabin-Karp modulo 2^32), `Constant` and
`FoldingExact` with `FoldingFractions` (constant folding with int64 fast paths over exact
integers and fractions), `StringDag` (lazy concatenation over shared nodes), `FmtInteger` (the
right-to-left integer formatter) and `AddrOrder` with `AddrPolicy` (sections 2.1, 2.2 and 6 of RFC 6724).

`Prelude` and `Utf8` are shared. Integers are unbounded, so wrap-around is written out where
the source relies on it: `Constant.Wrap64`, the 32-bit hash of `Search`, the 32-bit character
references of `Html`, the 64-bit words of `FmtInteger`.

## Where the code departs from its promise

Each of these is proved, and so is the condition under which the promise does hold.

- A trailing semicolon is documented as harmless in ParseMediaType, but returns before
  continuations and encoded parameters are put together: it is harmless exactly when each
  starred name that can be put together is there already with that value, and a second one is
  an error (`MediaType.TrailingSemicolon`, `MediaType.TwoSemicolons`).
- FormatMediaType and ParseMediaType undo each other exactly for lower-case, star-free token
  names (`MediaType.FormatBackIff`).
- Integer division of MinInt64 by -1 wraps (`FoldingExact.IntegersFold`,
  `FoldingExact.DivisionThatWraps`).
- UnreadByte after Discard puts back the byte of an earlier read, or fails if there is none;
  the last byte discarded is restored exactly when the two are equal
  (`Reader.Reader.DiscardThenUnread`).
- UnreadRune after ReadRune and Discard is documented to fail, and succeeds: it takes back the
  last bytes handed out, as many as the rune had, which are the rune exactly when the end of
  the rune and the discarded bytes equals it.  It fails when the buffer was refilled and fewer
  bytes were discarded since (`Reader.Reader.DiscardThenUnreadRune`, `Reader.Reader.UnreadRune`).
- A first CancelFunc call can return while its context is still in a children map, when the
  parent's cancel got there first (`ContextTree.LosingCallLeavesChild`). It is listed only
  until that sweep, or another goroutine that took on the removal, is done
  (`ContextTree.CancelFuncReturns`, `ContextTree.ReturnedCallsDetach`).
- Encode passes strings on that need no encoding, and these may themselves hold encoded-words
  (`EncodedWord.PassedOnDecodes`); DecodeHeader undoes Encode exactly for strings that need
  encoding or hold no word that decodes (`EncodedWord.EncodeBackIff`).
- fmt's push-back reader loses the bytes gathered for a rune exactly when an error other than
  EOF strikes in the middle of it (`RuneReader.ReadRune.Read`, `RuneReader.ByteIsLost`).
  UnreadRune before any ReadRune succeeds and makes the next ReadRune return U+0000
  (`RuneReader.UnreadFirst`); it gives back a rune exactly when one was read since the last
  push-back (`RuneReader.ReadRune.Unread`).

## Model

| member | source | states |
|---|---|---|
| Pipe.StepKeeps | Source/Gold/io/pipe.go:43-119 | One atomic step of any Read, Write or Close call (a select arm, a rendezvous on wrCh or rdCh, taking wrMu, one load or store of a stored error, closing done) keeps the invariant: wrMu and the calls that hold it agree, both orders list calls once, bytes and per-write shares balance |
| Pipe.RunKeeps | Source/Gold/io/pipe.go:43-119 | The invariant holds at the end of every interleaving of any number of calls |
| Pipe.HandshakeIsExclusive | Source/Gold/io/pipe.go:43-58 | In every reachable state at most one write waits for an acknowledgement and at most one read owes one; they are each other's peers, and the read's bytes are the next bytes of that write |
| Pipe.StreamIsPreserved | Source/Gold/io/pipe.go:43-97 | In every reachable state the bytes acknowledged to writes, in lock order, are a prefix of the bytes handed to reads, in receive order, and the two are equal when no handshake is outstanding; every call that moved bytes is in one of the orders, once |
| Pipe.WriteCountIsExact | Source/Gold/io/pipe.go:77-97 | A finished Write reports exactly the bytes reads took from it, and all of its bytes when it reports no error |
| Pipe.CloseErrorsAreStored | Source/Gold/io/pipe.go:60-119 | A failing Read returns no bytes; its error was stored by a CloseWrite, or is ErrClosedPipe after a CloseRead; symmetrically for Write. What was stored is in PipeCalls.CloseStoresItsError |
| Pipe.ClosingReleasesEveryCall | Source/Gold/io/pipe.go:43-97 | After done is closed, any continuation of the calls already made takes at most Work steps, and nothing more can happen exactly when all of them have returned |
| Pipe.StuckIffFinished | Source/Gold/io/pipe.go:43-97 | In a state of the invariant with done closed, no step is possible if and only if every call has returned |
| Pipe.WaitersMeet | Source/Gold/io/pipe.go:43-97 | A waiting read and a waiting write never block each other: the holder of wrMu meets the read or goes on, and a free wrMu is taken; the step is named |
| Pipe.OpenStuckIff | Source/Gold/io/pipe.go:43-97 | Before done is closed nothing more can happen exactly when all calls that have not returned are reads waiting for a write, or are one write waiting for a read and the writes queued behind it |
| Pipe.RunsAreBounded | Source/Gold/io/pipe.go:43-119 | Every run without new calls is finite: each step uses up part of a bound computed from the calls |
| PipeCalls.ReadFits | Source/Gold/io/pipe.go:43-58 | A Read returns no more bytes than it has room for, and fewer only when they are the last of the Write it met |
| PipeCalls.WriteSendsItsBytes | Source/Gold/io/pipe.go:77-97 | The bytes a Write sends are those it was called with |
| PipeCalls.CloseStoresItsError | Source/Gold/io/pipe.go:68-114 | The errors stored on each side are exactly those its Close calls past their store were given, with ErrClosedPipe for a CloseRead and EOF for a CloseWrite that was given none |
| PipeCalls.ReadErrorIsGiven | Source/Gold/io/pipe.go:43-114 | Without a CloseRead, a failing Read returns an error some CloseWrite was given, or EOF if one was given none; EOF always when no CloseWrite was given any |
| PipeCalls.WriteErrorIsGiven | Source/Gold/io/pipe.go:68-106 | Without a CloseWrite, a failing Write returns an error some CloseRead was given, or ErrClosedPipe if one was given none |
| PipeCalls.LateCallsFail | Source/Gold/io/pipe.go:43-106 | A call made after the pipe was closed moves no bytes and fails, with ErrClosedPipe when its own end had been closed by then |
| ContextTree.StepKeeps | Source/Gold/context/context.go:241-451 | Every step inside cancel, propagateCancel, removeChild, Done and the timer handling keeps the invariant: parents precede children, an uncancelled registered child is in its parent's map, a cancelled but unswept node is locked by the goroutine sweeping it |
| ContextTree.CallKeeps | Source/Gold/context/context.go:229-233 | Starting a WithCancel, a WithDeadline, a CancelFunc or a timer callback keeps the invariant |
| ContextTree.RunKeeps | Source/Gold/context/context.go:241-451 | The invariant holds after every interleaving of any number of goroutines over any tree |
| ContextTree.CancelReachesDescendants | Source/Gold/context/context.go:358-383 | Whenever a cancelled context's mutex is free, every registered descendant is cancelled, its done channel is closed and its children map is empty |
| ContextTree.DoneMeansErr | Source/Gold/context/context.go:340-383 | done is closed only when err is set, exactly when err is set while the mutex is free, and no goroutine is ever about to close it a second time |
| ContextTree.ErrIsSetOnce | Source/Gold/context/context.go:358-383 | Once set, err never changes again in any continuation of the run |
| ContextErrors.ErrorHasCause | Source/Gold/context/context.go:229-451 | Whatever error a context reports was given to a CancelFunc or the timer of that context or of one above it, or is DeadlineExceeded and the WithDeadline of such a context found its deadline past |
| ContextErrors.CanceledByCall | Source/Gold/context/context.go:229-451 | Canceled is reported only when a CancelFunc of that context or of one above it was called |
| ContextErrors.DeadlineExceededByTime | Source/Gold/context/context.go:394-451 | DeadlineExceeded is reported only when a WithDeadline of that context or of one above it found its deadline past, or the timer it had started fired |
| ContextTree.LocksNestDownward | Source/Gold/context/context.go:241-304 | A goroutine that waits for a node's mutex while it holds any holds the parent's, and all it holds belong to earlier nodes |
| ContextTree.NoDeadlock | Source/Gold/context/context.go:241-451 | As long as some call has not returned, some goroutine can take a step |
| ContextTree.RunsAreBounded | Source/Gold/context/context.go:241-451 | Every run without new calls is finite: each step uses up part of a bound computed from the state |
| ContextTree.EveryCallReturns | Source/Gold/context/context.go:241-451 | Run on without new calls, the calls already made take at most Work steps, and nothing more can happen exactly when every one of them has returned |
| ContextTree.CancelFuncDetaches | Source/Gold/context/context.go:287-304 | When a CancelFunc that took on the removal (the one that set err on a cancelCtx, any on a timerCtx) has returned, its context is in no children map |
| ContextTree.CancelFuncReturns | Source/Gold/context/context.go:229-304 | When any CancelFunc call has returned its context is cancelled, and it is still in a children map only while that parent, itself cancelled, is in the middle of its sweep with its mutex held, or while another goroutine that took on the removal has not returned |
| ContextTree.ListedOnlyMeanwhile | Source/Gold/context/context.go:287-383 | The same for every cancelled context in every reachable state, however it was cancelled |
| ContextTree.ReturnedCallsDetach | Source/Gold/context/context.go:287-383 | When every call has returned, no cancelled context is in any children map |
| ContextTree.LosingCallLeavesChild | Source/Gold/context/context.go:358-383 | A concrete run: a first CancelFunc call that finds its context already cancelled from above returns while the sweeping parent still lists it |
| ContextTimers.CancelFuncStopsTimer | Source/Gold/context/context.go:394-451 | From the return of any CancelFunc call on, its context holds no running timer |
| ContextTimers.CancelledTimerIsStopped | Source/Gold/context/context.go:394-451 | In every reachable state a cancelled context that still holds a timer has a goroutine about to stop it, and that has not returned |
| ContextTimers.ReturnedCallsStopTimers | Source/Gold/context/context.go:394-451 | When every call has returned, no cancelled context holds a timer |
| ContextTimers.DeadlineIsKept | Source/Gold/context/context.go:394-451 | A context with a deadline that is not cancelled holds its timer, or some goroutine that has not returned has yet to start it or to cancel the context |
| ContextTimers.ReturnedCallsKeepDeadlines | Source/Gold/context/context.go:394-451 | When every call has returned, exactly the contexts with a deadline that are not cancelled hold a timer |
| Dial.StepKeeps | Source/Gold/net/dial.go:446-516 | Every event of the race (a racer finishing, handing over or closing, the timer firing, the receive arms with Stop and Reset of the timer after the primary's error, the deferred calls, the return) keeps the invariant of the race |
| Dial.RaceIsSafe | Source/Gold/net/dial.go:446-516 | In every schedule the fallback starts at most once, at most one connection is taken and it is the one returned, an error return means both racers failed and carries the primary's error, and a connection that is not returned is still with a racer that will close it |
| Dial.RaceEnds | Source/Gold/net/dial.go:446-516 | No schedule is longer than 15 events, no state before the return is stuck, and when nothing more can happen the caller has returned and no connection is leaked |
| Dial.DialSerial | Source/Gold/net/dial.go:520-559 | The first address that settles the matter decides: its connection, the context's error, or the first address's error; with no addresses the missing-address error |
| Dial.PartialDeadline | Source/Gold/net/dial.go:136-156 | Fails exactly when the deadline has passed; otherwise stays between now and the deadline, gives at least the sane minimum or all that is left, at least an equal share, at most the larger of that share and two seconds, and all of it to the last address |
| Utf8.EncodeDecode | Source/Gold/unicode/utf8/utf8.go:150-368 | Decoding the first rune undoes encoding, whatever follows (sections 3 and 4 of RFC 3629) |
| Utf8.DecodeEncode | Source/Gold/unicode/utf8/utf8.go:150-368 | What decodes to more than an ill-formed byte is exactly the encoding of the rune |
| Utf8.FullIsEnough | Source/Gold/unicode/utf8/utf8.go:103-188 | A full rune decodes the same whatever follows it |
| Utf8.EncodeDecodeAll | Source/Gold/unicode/utf8/utf8.go:150-368 | Decoding a whole string undoes encoding a list of runes |
| RuneReader.ReadRune.ReadByte | Source/Gold/fmt/scan.go:314-326 | Takes exactly the next byte of pending bytes followed by input, or reports the error that comes next; a pending byte other than the last is a continuation byte |
| RuneReader.ReadRune.Read | Source/Gold/fmt/scan.go:330-367 | Over a reader that may fail and go on: returns the pushed-back rune, or the first rune of the bytes in store, consuming exactly its bytes; an error other than EOF in mid-rune is the only way to lose bytes, the lost bytes are named, and what comes after the error is left |
| RuneReader.ByteIsLost | Source/Gold/fmt/scan.go:330-367 | A concrete input: an error after the first byte of a rune loses that byte, and its continuation byte is read next |
| RuneReader.ReadRune.Save | Source/Gold/fmt/scan.go:330-367 | Bytes read too far are pushed back in front of the remaining stream; the pending buffer is empty at that point |
| RuneReader.ReadRune.Unread | Source/Gold/fmt/scan.go:369-388 | Succeeds unless a rune is already pushed back, and leaves the bytes alone; what it pushes back is the rune last read if and only if one was read since the last push-back, and U+0000 otherwise |
| RuneReader.UnreadFirst | Source/Gold/fmt/scan.go:314-388 | Before any ReadRune, UnreadRune succeeds and the next ReadRune returns U+0000 with the stream untouched |
| RuneReader.ReadRune.ReadAgain | Source/Gold/fmt/scan.go:330-380 | Read, unread, read gives the same rune twice and consumes it once, whatever errors the reader has in store |
| RuneReader.ReadRune.ReadAll | Source/Gold/fmt/scan.go:304-376 | Reading runes until the first error consumes every byte and gives the reference reading of them, ill-formed bytes included |
| RuneReader.ReadOutAll | Source/Gold/fmt/scan.go:330-367 | When the final error is EOF the reference reading is the rune-by-rune decoding of all bytes |
| RuneReader.ReadOutPart | Source/Gold/fmt/scan.go:330-367 | For any other final error it is the decoding of all but an unfinished last rune |
| RuneReader.Leftover | Source/Gold/fmt/scan.go:330-367 | When gathering stops at the first decidable prefix, the bytes beyond the rune are all continuation bytes but the last, so push-back keeps the invariant |
| Reader.Reader.Fill | Source/Gold/bufio/bufio.go:86-114 | Slides and refills without losing a byte of the stream; makes progress or stores an error; reads at most 100 times, and stores ErrNoProgress only after exactly 100 reads without a byte |
| Reader.Reader.Peek | Source/Gold/bufio/bufio.go:129-156 | Returns a prefix of the stream and consumes nothing; no error exactly when it has the length asked for, ErrBufferFull beyond the buffer size, ErrNegativeCount below zero |
| Reader.Reader.Discard | Source/Gold/bufio/bufio.go:163-189 | Drops exactly the reported number of bytes from the front of the stream; no error exactly when that is the number asked for; up to the buffered bytes go without a read of the source and move the read position only |
| Reader.Reader.Read | Source/Gold/bufio/bufio.go:197-242 | What lands in the caller's slice is exactly what leaves the front of the stream, through the buffer or around it, and can be unread; EOF only at the end of the stream |
| Reader.Reader.ReadByte | Source/Gold/bufio/bufio.go:246-258 | Takes the first byte of the stream, or nothing; EOF only at the end of the stream |
| Reader.Reader.UnreadByte | Source/Gold/bufio/bufio.go:265-280 | Succeeds exactly when the state allows it, puts lastByte in front of the stream, and right after a read restores the stream as it was |
| Reader.Reader.DiscardThenUnread | Source/Gold/bufio/bufio.go:163-280 | After an error-free Discard(n), n > 0, UnreadByte succeeds exactly when lastByte was set, puts the stale lastByte in front of what follows, and so restores the last discarded byte exactly when the two are equal |
| Reader.Reader.ReadRune | Source/Gold/bufio/bufio.go:285-301 | Takes the first rune of the stream whatever the chunking; only a pending error other than EOF can cut a rune short |
| Reader.Reader.UnreadRune | Source/Gold/bufio/bufio.go:307-315 | Succeeds exactly when lastRuneSize is set and not beyond the read position, and then takes back the last lastRuneSize bytes handed out, so the stream goes back by that many bytes: the rune's own when nothing was handed out since |
| Reader.Reader.DiscardThenUnreadRune | Source/Gold/bufio/bufio.go:163-315 | When ReadRune, or any call that left a rune to unread, is followed by an error-free Discard(n), n > 0: UnreadRune succeeds if n bytes were buffered, refuses if the buffer was refilled and fewer bytes than the rune's discarded from the refill, and a success takes back the end of the rune and the discarded bytes, which is the rune exactly when the two are equal |
| Reader.Reader.ReadRuneTwice | Source/Gold/bufio/bufio.go:285-315 | ReadRune, UnreadRune, ReadRune gives the same rune and size and consumes its bytes once, also when a pending error cut the rune short |
| Reader.Reader.ReadSlice | Source/Gold/bufio/bufio.go:330-369 | The shortest prefix of the stream ending in delim, or a full buffer without one, or everything before the error |
| Reader.Reader.ReadBytes | Source/Gold/bufio/bufio.go:429-467 | The shortest prefix of the stream ending in delim, or everything up to the error, whatever the size of the buffer; never ErrBufferFull |
| Writer.Writer.Flush | Source/Gold/bufio/bufio.go:586-607 | Moves bytes from the buffer to the sink, none lost or doubled when the sink fails partway; without error the sink holds everything accepted |
| Writer.Writer.Write | Source/Gold/bufio/bufio.go:619-641 | Sink followed by buffer grows by exactly the reported prefix of the argument, all of it without error; after an error nothing more reaches the sink |
| Writer.Writer.WriteByte | Source/Gold/bufio/bufio.go:644-654 | Accepts the byte exactly when it reports no error |
| Writer.Writer.WriteRune | Source/Gold/bufio/bufio.go:658-683 | Accepts exactly the reported prefix of the rune's encoding |
| Writer.Writer.WriteString | Source/Gold/bufio/bufio.go:689-705 | Accepts exactly the reported prefix of the string |
| Writer.Writer.ReadFrom | Source/Gold/bufio/bufio.go:710-758 | Accepts exactly the reported count of bytes from the source, in order; without error the source is exhausted |
| Scanner.CutIsFaithful | Source/Gold/bufio/scan.go:345-359 | The reference split: pieces that make up the input, each ending at its only newline except perhaps the last, and tokens that are the pieces without their line ending |
| Scanner.ScanLines | Source/Gold/bufio/scan.go:332-359 | A token is the first line without \r?\n and advances past it; no token means no newline in the data and, at EOF, no data |
| Scanner.Scanner.Scan | Source/Gold/bufio/scan.go:134-251 | Returns the first line of what remains, of at most the limit in bytes; or false with the final error at the end of the input; or false with ErrTooLong, only for a line that fills the buffer. An unterminated line of exactly the limit may do either: it is returned when the error comes with its last bytes. The empty-token panic is unreachable |
| Scanner.Scanner.ScanAll | Source/Gold/bufio/scan.go:134-251 | The tokens up to the first false are a prefix of the reference split for every chunking, and all of it when every line fits the limit, which is the larger of maxTokenSize and the initial buffer (up to half the range of an int) |
| Scanner.AllFitCut | Source/Gold/bufio/scan.go:134-230 | Fitting the buffer is a condition on the pieces of the reference split alone |
| Scanner.CapIsMax | Source/Gold/bufio/scan.go:188-204 | The limit that lines are measured by is the configured maximum, or the size of the initial buffer when that is larger; a maximum beyond half the range of an int may not be reached |
| Html.EntityShrinks | Source/Gold/html/escape.go:56-164 | No reference is replaced by more bytes than it occupies, numeric ones that wrap around in 32 bits included |
| Html.UnescapeEntity | Source/Gold/html/escape.go:56-164 | Rewrites one reference in place: the write cursor stays at or behind the read cursor, the unread bytes are intact, and the output is the pure meaning of the reference |
| Html.UnescapeString | Source/Gold/html/escape.go:187-214 | The in-place rewriting equals the left-to-right unescape of the immutable input |
| Html.EscapeThenUnescape | Source/Gold/html/escape.go:166-214 | Unescaping undoes EscapeString for every byte string |
| HtmlReferences.NumericReference | Source/Gold/html/escape.go:56-118 | "&#" or "&#x", digits in either case and a semicolon become the rune of the number in 32 bits, its Windows-1252 replacement, or U+FFFD for no rune |
| HtmlReferences.OpenReference | Source/Gold/html/escape.go:56-118 | So do digits without a semicolon, up to the first other character, unless it is a single decimal digit |
| HtmlReferences.SmallNumber | Source/Gold/html/escape.go:74-99 | Below 2^31 the number is the one written |
| HtmlReferences.NamedReference | Source/Gold/html/escape.go:120-164 | A name, with the semicolon that follows it, becomes its one or two runes; an unknown name its longest known beginning of two to six letters and the rest; any other stands for itself |
| HtmlReferences.EscapedIsSafe | Source/Gold/html/escape.go:166-178 | Escaped text holds no angle bracket and no quote |
| HtmlReferences.PlainStays | Source/Gold/html/escape.go:187-214 | Text without an ampersand is unescaped to itself |
| Search.Power | Source/Gold/bytes/bytes.go:1108-1138 | Repeated squaring computes primeRK^n modulo 2^32 |
| Search.HashStr | Source/Gold/bytes/bytes.go:1108-1121 | The hash is the bytes as digits in base primeRK modulo 2^32, and the power belongs to the length |
| Search.HashStrRev | Source/Gold/bytes/bytes.go:1125-1138 | The same with the last byte most significant |
| Search.Rolled | Source/Gold/bytes/bytes.go:1080-1101 | One rolling step in 32-bit arithmetic gives the hash of the next window |
| Search.RolledBack | Source/Gold/bytes/bytes.go:104-138 | One rolling step to the left gives the hash of the previous window |
| Search.IndexRabinKarp | Source/Gold/bytes/bytes.go:1080-1101 | The least match position, or -1 exactly when there is none |
| Search.Index | Source/Gold/bytes/bytes.go:993-1078 | The least match position, or -1 exactly when there is none, for every architecture limit and every patience of the byte scan |
| Search.LastIndex | Source/Gold/bytes/bytes.go:104-138 | The greatest match position, or -1 exactly when there is none |
| AddrOrder.CidrMask | Source/Gold/net/ip.go:71-91 | Nil exactly for a length other than 32 and 128 or a count out of range; otherwise the bits are that many ones followed by zeros |
| AddrOrder.NetContains | Source/Gold/net/ip.go:472-511 | The loop decides agreement under the mask, of the 4-byte forms where they exist |
| AddrOrder.ContainsIsPrefix | Source/Gold/net/ip.go:496-511 | An IPv6 network contains exactly the IPv6 addresses that share its first bits |
| AddrOrder.Classify | Source/Gold/net/addrselect.go:308-315 | The entry of a longest matching prefix, or the zero entry exactly when none matches |
| AddrOrder.ClassifyIsDeterminate | Source/Gold/net/addrselect.go:225-315 | The classification does not depend on how the unstable sort orders entries with equal masks |
| AddrOrder.SortedPolicy | Source/Gold/net/addrselect.go:225-273 | The policy can be sorted so: there is a table of its entries with the longest masks first |
| AddrOrder.PrecedenceTellsFamily | Source/Gold/net/addrselect.go:225-268 | Precedence 35 is given to exactly the IPv4 addresses |
| AddrOrder.CommonPrefixLen | Source/Gold/net/addrselect.go:355-390 | The number of leading bits in which the addresses agree, up to 64, in the same family; zero across families |
| AddrOrder.LessIsKeyOrder | Source/Gold/net/addrselect.go:96-214 | The pairwise rules are the lexicographic comparison of one key per destination |
| AddrOrder.LessIsStrictWeakOrder | Source/Gold/net/addrselect.go:96-214 | Irreflexive, asymmetric, transitive, and ties are transitive |
| AddrPolicy.ClassifiesSix | Source/Gold/net/addrselect.go:225-315 | The precedence and the label of every IPv6 address follow from its leading bytes: the longest of the eight ranges that holds it |
| AddrPolicy.AttrIs | Source/Gold/net/addrselect.go:64-75 | So do all attributes: precedence, label and scope by the bytes of the address, 35 and 4 for IPv4, none for what is no address |
| AddrPolicy.ScopeIs | Source/Gold/net/addrselect.go:329-343 | Loopback and link-local addresses have scope 2, IPv6 multicast the scope in its second byte, site-local 5, all others 14 |
| AddrPolicy.FirstRules | Source/Gold/net/addrselect.go:114-166 | Reachable before unreachable, then a source of the same scope, then one of the same label |
| AddrPolicy.SixAgainstFour | Source/Gold/net/addrselect.go:96-214 | Where rules 2 and 5 do not decide, IPv6 comes before IPv4 for the loopback address and addresses outside the special ranges, and after it for the special ranges |
| AddrPolicy.SixAgainstSix | Source/Gold/net/addrselect.go:96-214 | Between two IPv6 destinations the precedence of their ranges decides, then the smaller scope, then the longer common prefix with the source |
| AddrOrder.RulesNeedThePolicy | Source/Gold/net/addrselect.go:196-212 | Without the policy's separation of the families, rule 9 would leave an IPv4 row tied with two IPv6 rows that are not tied |
| AddrOrder.ByRfc6724.LessAt | Source/Gold/net/addrselect.go:96-214 | The method decides the rules, and on rated rows the key order |
| AddrOrder.ByRfc6724.Swap | Source/Gold/net/addrselect.go:85-90 | Exchanges two rows in all four slices and keeps every row's attributes those of its addresses |
| FmtInteger.DigitsDenote | Source/Gold/fmt/format.go:232-268 | The digits written denote the number in that base |
| FmtInteger.DigitsAreShortest | Source/Gold/fmt/format.go:232-268 | No other numeral for the number in that base has fewer digits |
| FmtInteger.NoLeadingZero | Source/Gold/fmt/format.go:232-268 | The first digit is not zero, except for zero itself, whose one digit it is |
| FmtInteger.TextFits | Source/Gold/fmt/format.go:194-297 | Sign, marks and digits fit the 68-byte buffer or the one of 3+wid+prec bytes |
| FmtInteger.TextDenotes | Source/Gold/fmt/format.go:194-321 | The text after the sign and the mark denotes the absolute value of the word read as signed or unsigned; '-' stands first exactly for negative numbers |
| FmtInteger.TextIsInjective | Source/Gold/fmt/format.go:194-321 | With the same flags, different words never print alike |
| FmtInteger.FormattedWidth | Source/Gold/fmt/format.go:90-105 | With a width the output has at least that many runes, and exactly the larger of the width and the text |
| FmtInteger.TextLayout | Source/Gold/fmt/format.go:194-297 | The text is the sign byte each flag gives, "0o", the mark of the base, zeros up to the precision or the width, and the digits |
| FmtInteger.FormattedLayout | Source/Gold/fmt/format.go:90-105 | Spaces up to the width stand before the text, or after it with the minus flag |
| FmtInteger.FigureIs | Source/Gold/fmt/format.go:220-268 | Digits are 0 to 9 and letters of the case asked for |
| FmtInteger.Formatter.WritePadding | Source/Gold/fmt/format.go:64-87 | Appends the padding, in a larger buffer when the old one is full |
| FmtInteger.Formatter.Pad | Source/Gold/fmt/format.go:90-105 | Appends the bytes padded on the left or on the right |
| FmtInteger.Formatter.FmtInteger | Source/Gold/fmt/format.go:194-321 | The cursor never leaves the chosen buffer, the output is exactly the padded text, and the flags are as before |
| StringDag.Reverse | Source/Gold/constant/value.go:134-140 | Reverses in place |
| StringDag.DenotesText | Source/Gold/constant/value.go:120-167 | The in-order concatenation of the leaves under a node is the text it was built for, whatever has been collapsed |
| StringDag.StringVal.AppendReverse | Source/Gold/constant/value.go:148-167 | Appends pieces that spell the node's text when read backwards; no lock is taken twice and all are returned |
| StringDag.StringVal.ToString | Source/Gold/constant/value.go:120-131 | Returns the in-order concatenation, makes the node a leaf, and leaves the denoted string of every node as it was |
| StringDag.Add | Source/Gold/constant/value.go:1278-1281 | A new node for the concatenation; nothing else changes |
| FoldingExact.MatchKeepsMeaning | Source/Gold/constant/value.go:1044-1105 | Bringing operands to one representation keeps the numbers they denote |
| FoldingExact.Int64Folds | Source/Gold/constant/value.go:1133-1170 | The guarded 64-bit fast paths agree with unbounded arithmetic, except exactly for MinInt64 / -1 |
| FoldingExact.IntegersFold | Source/Gold/constant/value.go:1117-1200 | Integer operations on Ints of either representation are unbounded arithmetic with the result an int64Val exactly when it fits; division by zero panics; the only exception is MinInt64 / -1 on int64Vals |
| FoldingExact.DivisionThatWraps | Source/Gold/constant/value.go:1155-1156 | That exception concretely: the result is MinInt64 instead of 2^63 |
| FoldingExact.QuoRem | Source/Gold/constant/value.go:1155-1158 | Quotient and remainder are those of truncated division |
| FoldingExact.BitsAreBitwise | Source/Gold/constant/value.go:1159-1166 | AND, OR, XOR and AND_NOT act on each bit of the unbounded two's complement |
| FoldingExact.FieldFolds | Source/Gold/constant/value.go:1117-1218 | Sum, difference, product and quotient of exact operands of any two representations are exact unless the result became a floatVal; only division by zero panics |
| FoldingFractions.FractionStays | Source/Gold/constant/value.go:274-291 | A sum, difference, product or quotient computed with fractions, with the exact value p/q in lowest terms, is p/q when both terms are below 2^4095, and a floatVal otherwise |
| FoldingFractions.IntegerStays | Source/Gold/constant/value.go:1117-1200 | A sum, difference or product of integers is the integer, whatever its size |
| FoldingFractions.NegationStays | Source/Gold/constant/value.go:960-979 | The negation of a fraction is a fraction when both terms are below 2^4095, and a floatVal otherwise |
| FoldingFractions.LowestIsUnique | Source/Gold/constant/value.go:280-291 | Two fractions in lowest terms with the same value are the same, so the exact value determines the result |
| FoldingExact.ReduceMeans | Source/Gold/constant/value.go:280-291 | Reducing a fraction keeps its value |
| FoldingExact.ReduceIsLowest | Source/Gold/constant/value.go:280-291 | Fractions come out in lowest terms with a positive denominator |
| FoldingExact.NegationFolds | Source/Gold/constant/value.go:960-979 | Negation is exact, also of MinInt64 |
| FoldingExact.ComplementFolds | Source/Gold/constant/value.go:981-1000 | Complement is -1-n, modulo 2^prec for a sized type |
| FoldingExact.ComparisonFolds | Source/Gold/constant/value.go:1355-1392 | Comparison is the order of the numbers denoted; other operators panic |
| FoldingExact.ComplexSumFolds | Source/Gold/constant/value.go:1238-1251 | Complex sums and differences are exact in every part that is no floatVal |
| FoldingExact.ComplexProductFolds | Source/Gold/constant/value.go:1252-1259 | So are complex products |
| FoldingExact.ComplexQuotientFolds | Source/Gold/constant/value.go:1260-1276 | So are complex quotients; a panic means exactly a divisor whose parts are both zero |
| FoldingExact.ComplexComparisonFolds | Source/Gold/constant/value.go:1397-1406 | Complex equality is equality of both parts, and complex values have no order |
| FoldingExact.ComplexNegationFolds | Source/Gold/constant/value.go:975-978 | Negation acts on both parts |
| FoldingFractions.SmallComplexStays | Source/Gold/constant/value.go:1225-1276 | Complex operations on operands whose parts have terms below 2^511 give no floatVal, so they are exact in both parts |
| FoldingFractions.BoolFolds | Source/Gold/constant/value.go:1122-1131 | Operations on truth values follow the truth tables, and all others panic |
| FoldingFractions.KindsFold | Source/Gold/constant/value.go:1044-1121 | An unknown operand makes the result unknown and comparisons false; truth values and numbers do not mix |
| IpText.FindRun | Source/Gold/net/ip.go:313-330 | Finds the first of the longest runs of zero groups, or none when no run has two groups |
| IpText.PrintIPv6 | Source/Gold/net/ip.go:332-355 | Prints the groups with "::" for that run |
| IpText.PrintIPv4 | Source/Gold/net/ip.go:266-309 | Prints the dotted form into a buffer of 15 bytes |
| IpText.String | Source/Gold/net/ip.go:288-356 | Returns the text of the address: of no bytes, of an IPv4 address, of an IPv6 address with its first longest run shortened, or the hexadecimal fallback |
| IpText.TextIsUnique | Source/Gold/net/ip.go:313-330 | There is only one such text: the first longest run is unique |
| IpText.TextBack | Source/Gold/net/ip.go:288-356 | ParseIP undoes String: 16 bytes come back as they were, 4 bytes in their 16-byte form, and anything else is no address |
| IpText.AppendHex | Source/Gold/net/parse.go:202-213 | Hexadecimal digits without leading zeros |
| IpText.XtoiLoop | Source/Gold/net/parse.go:138-161 | Reads the longest hexadecimal prefix below the limit |
| IpText.XtoiBack | Source/Gold/net/parse.go:138-161 | Reading undoes printing a 16-bit group before a non-digit |
| IpText.DtoiLoop | Source/Gold/net/parse.go:122-134 | Reads the longest decimal prefix below the limit |
| IpText.ParseIPv4Loop | Source/Gold/net/ip.go:535-559 | Reads four octets, or fails as specified |
| IpText.ExpandInPlace | Source/Gold/net/ip.go:651-662 | The in-place expansion yields prefix, zeros and suffix |
| IpText.ParseIPv6Loop | Source/Gold/net/ip.go:570-668 | The loop over the array computes the recursive parse with its ellipsis expanded |
| IpText.ParseIPScan | Source/Gold/net/ip.go:675-685 | The first dot or colon decides the parser |
| IpSyntax.FullReads | Source/Gold/net/ip.go:570-668 | Groups with digits in either case and leading zeros, perhaps four dotted octets at the end, read as their bytes when they make up sixteen, and as no address otherwise |
| IpSyntax.ElidedReads | Source/Gold/net/ip.go:570-668 | With a double colon: the groups before it, zeros, and what follows it, dotted octets included; no address when there is no room for a zero group |
| IpSyntax.DottedReads | Source/Gold/net/ip.go:535-559 | Four dotted octets read as the 16-byte form |
| IpSyntax.HexCharIs | Source/Gold/net/parse.go:202-213 | Addresses are printed in lower-case digits |
| EncodedWord.PiecesConcat | Source/Gold/mime/encodedword.go:114-141 | The pieces put into the words make up the string |
| EncodedWord.WordsFit | Source/Gold/mime/encodedword.go:70-77 | Every emitted word is at most 75 bytes long |
| EncodedWord.PiecesKeepRunes | Source/Gold/mime/encodedword.go:114-141 | Decoding each word's piece alone gives the runes of the whole string: no rune is split |
| EncodedWord.WriteQString | Source/Gold/mime/encodedword.go:144-157 | Appends the Q encoding of the bytes |
| EncodedWord.QEncode | Source/Gold/mime/encodedword.go:114-141 | The loop emits the words of the pieces, one space between them |
| EncodedWord.EncodeWordLoop | Source/Gold/mime/encodedword.go:52-67 | Builds the encoded-words of a string for any charset: the words of its pieces for UTF-8, one word of any length otherwise |
| EncodedWord.QDecodeLoop | Source/Gold/mime/encodedword.go:372-398 | Decodes into the slice, or fails as specified |
| EncodedWord.QBack | Source/Gold/mime/encodedword.go:372-424 | qDecode undoes writeQString for all bytes |
| EncodedWord.DecodeHeaderLoop | Source/Gold/mime/encodedword.go:240-312 | The loop computes the recursive decoding of a header |
| EncodedWord.EncodeBack | Source/Gold/mime/encodedword.go:35-312 | For every string that needs encoding, DecodeHeader of the output is the string, the spaces between words removed |
| EncodedWord.EncodeBackIff | Source/Gold/mime/encodedword.go:35-312 | Without base64 words and a charset reader, DecodeHeader undoes Encode if and only if the string needs encoding, or holds no word that decodes |
| EncodedWord.IdleBack | Source/Gold/mime/encodedword.go:240-312 | With any codec and any charset reader, a header without a word that decodes comes back as it is |
| EncodedWord.IdleIff | Source/Gold/mime/encodedword.go:240-312 | Only such a header does, without base64 words and a charset reader, since a decoded word is shorter than the word |
| EncodedWord.PassedOnDecodes | Source/Gold/mime/encodedword.go:35-40 | The failing family: any word needs no encoding itself, is passed on, and decodes to its content instead |
| HeaderWords.HeaderReads | Source/Gold/mime/encodedword.go:226-312 | Any list of Q words in the three known charsets, with any text before, between and after them in which no word begins: the words are read and the text is kept, but for white space that only separates two words |
| HeaderWords.TextBetween | Source/Gold/mime/encodedword.go:290-297 | Text between two words is kept when it holds a byte other than space, tab, CR or LF, and dropped otherwise |
| HeaderWords.TextAround | Source/Gold/mime/encodedword.go:226-312 | Text on both sides of a single word is kept |
| HeaderWords.QReads | Source/Gold/mime/encodedword.go:372-424 | Q text reads item by item: a byte as it is, an underscore as a space, an equals sign and two digits in either case as a byte |
| HeaderWords.QSplits | Source/Gold/mime/encodedword.go:372-424 | Nothing else is Q text |
| HeaderWords.ConvertIs | Source/Gold/mime/encodedword.go:325-343 | Each known charset, in letters of either case, converts byte by byte: UTF-8 as it is, iso-8859-1 to the rune of that number, us-ascii with U+FFFD for other bytes |
| HeaderWords.OtherCharset | Source/Gold/mime/encodedword.go:325-355 | In any other charset the reader decides, and its error is the error of the header |
| HeaderWords.NeedsEncodingIs | Source/Gold/mime/encodedword.go:35-49 | Encode passes on exactly the texts of printable ASCII and tabs |
| MediaType.PercentLoop | Source/Gold/mime/mediatype.go:59-79 | Percent-encodes, copying runs of plain characters at once |
| MediaType.EscapeLoop | Source/Gold/mime/mediatype.go:87-99 | Escapes quotes and backslashes, copying runs at once |
| MediaType.FormatLoop | Source/Gold/mime/mediatype.go:20-102 | Writes the lower-case type and the parameters, or nothing when a part is no token |
| MediaType.PercentBack | Source/Gold/mime/mediatype.go:354-391 | Unescaping undoes percent-encoding of any bytes |
| MediaType.UnescapeLoop | Source/Gold/mime/mediatype.go:354-391 | Counting first and filling a slice of exactly that length computes the unescaped string, or fails for a malformed escape |
| MediaType.ConsumeValueLoop | Source/Gold/mime/mediatype.go:287-324 | Reads a token or a quoted string |
| MediaType.ValueBack | Source/Gold/mime/mediatype.go:287-324 | Each of the three written forms of a value reads back, up to the next semicolon or the end |
| MediaType.ParamBack | Source/Gold/mime/mediatype.go:326-352 | A written parameter reads back as its name and value |
| MediaType.StitchLoop | Source/Gold/mime/mediatype.go:196-234 | Looking up parts in the unchanged map gives the same as using each part once |
| MediaType.StitchJoins | Source/Gold/mime/mediatype.go:199-234 | A value sent in parts key*0, key*1, ..., each plain or percent-encoded (key*0* with a charset, key*n*), in any mixture, is put together in order (section 4.1 of RFC 2231) |
| MediaType.ParseLoop | Source/Gold/mime/mediatype.go:140-238 | The loops over parameters and continuations, in any order of the map, compute the recursive parse |
| MediaType.ParseKeys | Source/Gold/mime/mediatype.go:140-238 | Whatever is parsed, the names returned are lower-case and free of stars |
| MediaType.FormatBackIff | Source/Gold/mime/mediatype.go:20-238 | ParseMediaType of FormatMediaType gives the lower-case type and the same map if and only if the type is made of tokens and every name is a lower-case token without a star |
| MediaType.TrailingSemicolon | Source/Gold/mime/mediatype.go:165-173 | For every text whose parameters are read to its end: with a semicolon after it the text still parses, but to the parameters before continuations and encoded values are put together, so the result is the same if and only if each starred name that can be put together is a parameter already with that value, in particular without starred names; with two semicolons it is an error |
| MediaType.TwoSemicolons | Source/Gold/mime/mediatype.go:157-194 | A second trailing semicolon is an error wherever the loop has got to |
| MediaType.FormattedSemicolon | Source/Gold/mime/mediatype.go:165-173 | After the output of FormatMediaType, a semicolon leaves exactly the parameters that need no encoding |
| MediaSyntax.QuotedReads | Source/Gold/mime/mediatype.go:287-324 | A quoted string reads as what its pieces stand for: a backslash and a special character as that character, any other byte but a quote or a line break as itself, a backslash before an ordinary character included |
| MediaSyntax.PathReads | Source/Gold/mime/mediatype.go:299-316 | In particular a path with backslashes before ordinary characters reads as it stands |
| MediaSyntax.QuotedFails | Source/Gold/mime/mediatype.go:316-324 | A CR, an LF or a missing end quote is failure |
| MediaSyntax.QuotedSplits | Source/Gold/mime/mediatype.go:287-324 | Every text after a quote is pieces up to an end quote, a line break or the end, so these are all the cases |
| MediaSyntax.ParamReads | Source/Gold/mime/mediatype.go:326-352 | A parameter reads as its name in lower case and its value, whatever white space is around the semicolon and the equals sign |
| MediaSyntax.NoSemicolon | Source/Gold/mime/mediatype.go:326-330 | Text that does not start with a semicolon after white space is no parameter |
| MediaSyntax.NoName | Source/Gold/mime/mediatype.go:332-338 | Nor is a semicolon without a name |
| MediaSyntax.NoEquals | Source/Gold/mime/mediatype.go:340-343 | Nor a name without an equals sign |
| MediaSyntax.NoValue | Source/Gold/mime/mediatype.go:344-349 | Nor an equals sign without a value |
| MediaSyntax.MediaTypeReads | Source/Gold/mime/mediatype.go:140-238 | A whole text reads as the type in lower case without white space around it and the parameters, when no name is starred or comes twice |
| MediaSyntax.BadTypeIff | Source/Gold/mime/mediatype.go:106-127 | The type is rejected exactly when it is neither a token nor two with a slash between them |
| MediaSyntax.RepeatedName | Source/Gold/mime/mediatype.go:176-192 | A name that comes twice, in letters of either case, with or without stars, is an error |
| MediaSyntax.NoValueIff | Source/Gold/mime/mediatype.go:287-324 | Nothing is read as a value exactly from a text that starts with neither a token nor a closed quoted string |
| MediaSyntax.BadParameter | Source/Gold/mime/mediatype.go:165-175 | Text that is no parameter and no lone semicolon is an invalid parameter |
| MediaSyntax.OctetsRead | Source/Gold/mime/mediatype.go:354-391 | Percent-encoded text reads octet by octet, digits in either case |
| MediaSyntax.CharsetReads | Source/Gold/mime/mediatype.go:240-262 | charset'language'text reads for utf-8 and us-ascii in letters of either case, whatever the language, and for no other charset |

## Left out

- EncodedWord.EncodeBackIff: both directions for headers without base64 words and without a charset reader, which may decode a word to anything; the direction of IdleBack and EncodeBack needs neither.
- Scanner.Scanner.ScanAll: up to the first false Scan only; after ErrTooLong a later Scan may return true again.
- Reader.Reader.UnreadByte: restores the previous stream right after Read, ReadByte or ReadRune; after Discard only under the condition of DiscardThenUnread.
- AddrOrder.ByRfc6724.LessAt: the stable sort itself is a library call and is not modelled; neither is the probing of source addresses by UDP.
- StringDag.StringVal.ToString: one goroutine at a time; the locks are modelled so that none is taken twice, not so that goroutines interleave.
- FmtInteger.Formatter.FmtInteger: the verb 'O' comes with base 8, as every caller has it; with base 2 and the sharp flag it would need 69 bytes. Masks and shifts of unsigned words are written as remainders and quotients.
- MediaType.ParseLoop: white space and letter case are those of ASCII; the wider Unicode classes matter only for text that FormatMediaType never writes. The names are taken in sorted order from the caller, and every order is covered by the laws.
- EncodedWord.DecodeHeaderLoop: the base64 codec and the caller's CharsetReader are parameters, and charset names are compared by ASCII case.
- FoldingExact.FieldFolds: floatVals carry no digits in the model, so nothing is said about results that became one; strings are in StringDag, shifts and conversions are not modelled.
- FoldingFractions.SmallComplexStays: with longer parts an intermediate result may become a floatVal, and then the result is one.
- MediaSyntax.MediaTypeReads: white space is that of ASCII here too; starred names are read by MediaType.StitchJoins.
- Html.UnescapeString: the entity table is a parameter; the in-place bound is assumed of its entries (no replacement longer than "&name"), and the round trip uses the names amp, lt and gt.
- Dial.DialSerial: sockets, contexts and clocks are the list of outcomes the attempts have.
- ContextTree.RunKeeps: clocks and map order are free choices of the steps (any deadline may pass at any time, children are cancelled in any order); a CancelFunc may be called, any number of times, on any context that WithCancel or WithDeadline has finished linking.
- The goroutine branch of propagateCancel for foreign Context types; contexts here are those of the package.
- Reader.ReadLine, Reader.WriteTo, Writer's ReaderFrom shortcut and the other split functions of Scanner: they add no new kind of state.
- The source and the sink of the bufio models never return bufio's own sentinel errors.
- ParseCIDR of the policy prefixes: the policy table is written out as networks.
- Base64 encoded-words: bEncode and the codec of encoding/base64 are not modelled.
- Sockets, DNS, reflection-driven formatting and scanning, float formatting, and the AST, image, flag, crypto and log packages: operating-system calls, reflection or many easy members.
