# Verified model of a C++ server framework

A small C++ server framework has an incremental HTTP request parser, a logging library
whose output format is a little language, a typed configuration store with listeners,
scoped locks, and coroutines ("fibers"). This project models that behaviour in Dafny and
proves what holds of it for every input, every run and every interleaving.

`dafny verify dfyconfig.toml` checks the project.

## The parts

**HTTP parser** (`HttpSpec`, `HttpParser`). `HttpSpec` describes, as functions of the bytes
received, where lines end, what an accepted request line is and what the parser must leave
behind. `HttpParser.RequestParser` is the parser itself: it scans, tokenises and overwrites
one byte array in place and keeps its indices and status between calls. Its driver appends
chunks of any size, and the result is proved to be that of the whole stream. The accepted
request lines are described once more by a grammar without scanning, and the verdicts by
lines, and both descriptions are proved exact. Section 3 of RFC
9112 permits several blanks between the parts of a request line; a method and version in
any case go beyond it, and are what the code accepts.

**Log formatter** (`LogPattern`, `LogFormatter`). A pattern has tokens, a left-to-right
meaning, and a compiled form. `LogFormatter.Init` is the scan of the source, with its loop
and its appends. Compilation preserves the meaning on error-free patterns exactly when the
pattern is empty or ends in a directive other than a bare `%d`: text pending at the end and
a final bare `%d` write nothing. Patterns and item lists go to and fro without loss.

**Loggers** (`LogConfig`, `Loggers`, `LogManager`). Loggers and appenders are heap objects
that share formatters. The listener on the `logs` variable patches them incrementally.
Before that it logs to root, through a null pointer when root has no appender, so some
histories of configurations end there; which ones is stated exactly on the configurations.
As far as a history goes, each name is as a from-scratch description says, and logging to
a configured logger writes what its patterns mean. Appenders without a formatter
of their own share their logger's; where that stops being so is stated exactly. A formatter
is made once from its pattern and never changes.

**Configuration** (`ConfigTree`, `ConfigVar`, `ConfigStore`, `ContainerCasts`,
`ConcurrentVar`). Flattening a tree agrees with path lookup, loading gives every
variable the cast of the node that its name leads to, serialised changes announce an
unbroken chain of values, and container casts round-trip exactly when the elements do.
`ConcurrentVar` lets any number of threads run into each other. `SetValue` lets go of
its read lock before it takes the write lock, so overlapping calls can break the chain:
what is announced is a chain exactly when calls of `SetValue` take turns from comparison
to store. Two runs that break it are given, one of them with stores that hide it.

**Locks** (`SpinGuards`, `LockOrder`). The test-and-set lock with its guards as atomic steps,
and the nesting of all locks of the logging and configuration code, which ascends in one
ranking, so some thread can always go on.

**Fibers** (`FiberModel`, `FiberRuns`, `Fibers`). A machine of small steps for any number of
threads, in which `swapcontext` stores the place of control in one fiber and jumps to the
place stored in another. States, the current-fiber pointer, references and counters are
bookkeeping beside that, and are proved to agree with it in every run: suspended fibers
keep themselves alive, bodies run in order, and a body with k yields has ended after exactly
k + 1 calls of `SwapIn`. When an assertion of the library fails is stated exactly, by the
state of the fiber that is dropped, reset or swapped in. A std::exception that ends a body
leaves the state at EXEC, so dropping the last reference afterwards is one such case; a run
that does so is given. `Fibers` holds the classes, whose
methods do to the objects what the machine does to its records.

## Where the code is followed against its documentation or intent

- An unterminated `%d{` flags an error and reading goes on behind the character
  that follows the brace, so the rest of the pattern is read again (src/log.cpp:448-454).
- Appender and logger levels filter nothing (src/log.cpp:21-49).
- Root has no logger behind it, so a logger without appenders needs root to have one
  (src/log.cpp:42-48), and so does every change of `logs` (src/log.cpp:677).
- `parse_headers` accepts any second line, so a request is complete after two lines
  (tests/http.cpp:78-80).
- The handler of a std::exception in MainFunc leaves the state at EXEC (src/fiber.cpp:164-168).
- `cb_ == nullptr` in MainFunc is a comparison; the function of a finished fiber stays
  (src/fiber.cpp:162).
- `insert` keeps the first value of a repeated map key (src/config.h:219).

## Model

| member | source | states |
|---|---|---|
| HttpSpec.TokenizeExact | tests/http.cpp:35-76 | A C string is accepted, with this path and this end of the target, if and only if it is GET (any case), blanks, a target with a path, blanks, HTTP/1.1 (any case); the grammar mentions no scanning |
| HttpSpec.PrintedIsAccepted | tests/http.cpp:35-76 | Every canonically printed request line, with or without `http://` and a host, is accepted and gives its path back |
| HttpSpec.TokenizeSame | tests/http.cpp:35-76 | The tokeniser depends on no byte outside the C string it is given |
| HttpSpec.ScanLineResumes | tests/http.cpp:11-32 | Scanning for a line end from where an earlier scan stopped finds what a scan from the start of the line finds |
| HttpSpec.VerdictIsFinal | tests/http.cpp:82-116 | A verdict reached on a prefix, with its status, indices and bytes, is unchanged by any extension of the stream |
| HttpSpec.GetExact | tests/http.cpp:87-104 | GET_REQUEST if and only if two CRLF-ended lines free of CR and LF start the stream and the first is an accepted request line |
| HttpSpec.BadExact | tests/http.cpp:87-115 | BAD_REQUEST if and only if a refused line break comes in the first two lines or the first line is refused |
| HttpSpec.VerdictExact | tests/http.cpp:82-116 | The two conditions exclude each other, NO_REQUEST is all the rest, and no other code is ever the verdict |
| HttpSpec.StateExact | tests/http.cpp:7-33 | Status and both indices for every stream, without a scan: while undecided the current line starts where a line ends, holds no break before the checked index, and that index is at the end or at a final CR; a refused break is where it points |
| HttpSpec.CutsExact | tests/http.cpp:36-60 | The bytes that the tokeniser overwrites are the first blank and, after a method GET, the blank that ends the target; for any line |
| HttpSpec.BytesExact | tests/http.cpp:7-76 | Once the first line is complete, exactly these blanks and the bytes of the CRLFs that end accepted lines have become NUL |
| HttpSpec.BytesUntouched | tests/http.cpp:7-33 | A stream without a complete first line is left as it is |
| HttpSpec.AcceptedExact | tests/http.cpp:35-76 | A line is accepted if and only if the grammar of request lines has it |
| HttpSpec.PendingIsReady | tests/http.cpp:82-90 | After an undecided stream the indices and bytes are fit to go on with any further bytes |
| HttpParser.StrPbrk | tests/http.cpp:36 | First byte of a set in a C string, or null; nothing past the terminator is read |
| HttpParser.StrSpn | tests/http.cpp:50 | Length of the run of bytes of a set; nothing past the terminator is read |
| HttpParser.StrCaseEq | tests/http.cpp:44 | Equality with a literal up to ASCII case |
| HttpParser.FindPath | tests/http.cpp:62-69 | The start of the path of a target, after `http://` and a host if there is one |
| HttpParser.CheckVersion | tests/http.cpp:57-69 | The path is found exactly when the version text is HTTP/1.1 and the target has one |
| HttpParser.FlattenSplit | tests/http.cpp:82-116 | A stream is the chunks read so far followed by the others |
| HttpParser.RequestParser.constructor | tests/http.cpp:82-84 | A new parser has digested the empty stream: indices 0, status request line |
| HttpParser.RequestParser.Append | tests/test_server.cpp:134-145 | The new bytes land behind those already read, and nothing else changes |
| HttpParser.RequestParser.ParseLine | tests/http.cpp:7-33 | From any state: result and NUL-overwritten bytes are those of the scan, including the branch that looks back for a CR; on an open line everything scanned is kept and holds no break, on a refused one the index is at the break |
| HttpParser.RequestParser.NextLine | tests/http.cpp:11-32 | Called as parse_content does, the look-back branch never succeeds: the result is that of the plain scan of the stream |
| HttpParser.RequestParser.ParseTarget | tests/http.cpp:50-69 | In place, the bytes become and the path is what the specification of the rest of the line says |
| HttpParser.RequestParser.ParseRequestLine | tests/http.cpp:35-76 | In place, exactly the one or two bytes of the specification become NUL, inside the line; the status moves on exactly on acceptance |
| HttpParser.RequestParser.ParseContent | tests/http.cpp:82-116 | From a state ready for the stream, ends in the state and with the verdict of the whole stream |
| HttpParser.RequestParser.Feed | tests/http.cpp:82-116 | One more chunk after an undecided stream leads to the outcome of the longer stream |
| HttpParser.RequestParser.Drive | tests/http.cpp:82-116 | For every split into chunks, verdict, status, both indices and the buffer are those of the whole stream; while undecided nothing up to the checked index is a break and all of the stream has been scanned, a final CR aside |
| LogPattern.MeaningUpToEnd | src/log.cpp:405-458 | On every error-free pattern the items write what the pattern means, up to a pending final text or a final bare %d, which are lost; the meaning of a token is defined without items |
| LogPattern.MeaningExact | src/log.cpp:362-375 | On an error-free pattern the items write its meaning on every event if and only if it is empty or ends in a directive other than a bare %d |
| LogPattern.ErrorFreeExact | src/log.cpp:405-458 | No error is flagged if and only if the pattern is the text of a well-formed token list |
| LogPattern.ItemTable | src/log.cpp:390-403 | The twelve letters and what they stand for, the date aside; every other letter is unknown |
| LogPattern.CompileLonePercent | src/log.cpp:411-415 | A lone final % puts its notice before the pending text, which is lost |
| LogPattern.CompileUnknown | src/log.cpp:425-430 | An unknown letter compiles to a notice that names it |
| LogPattern.CompileOpenAtEnd | src/log.cpp:442-447 | A final %d{ compiles to its notice |
| LogPattern.CompileUnclosed | src/log.cpp:448-454 | Without a closing brace a notice quotes the rest of the pattern, and all but its first character is compiled again behind it |
| LogPattern.CompileConcat | src/log.cpp:405-458 | After a complete error-free pattern, compiling the concatenation gives the items of both, and the error flag of the second |
| LogPattern.PrintCompile | src/log.cpp:290-297 | Printing a printable item list and compiling it gives the same items without error, up to the default for an empty time format |
| LogPattern.LexPrints | src/log.cpp:405-458 | The tokens of an error-free text print to that text |
| LogPattern.LexPrinted | src/log.cpp:405-458 | Printed tokens are read back wherever they stand in a text |
| LogPattern.TokensConcat | src/log.cpp:405-458 | A complete error-free pattern and any other are read one after the other |
| LogPattern.LookUp | src/log.cpp:390-403 | A letter is found exactly when it is that of a directive |
| LogPattern.Close | src/log.cpp:449 | The first closing brace at or after a position, or the end |
| LogFormatter.LogFormatter.constructor | src/log.cpp:377-380 | The new formatter holds the compiled form of its pattern |
| LogFormatter.LogFormatter.Init | src/log.cpp:389-459 | The scan builds exactly the items and the error flag of the compiled pattern |
| LogFormatter.LogFormatter.Format | src/log.cpp:362-375 | The output is that of the items one after the other |
| LogFormatter.FormatsMeaning | src/log.cpp:362-375 | Format of a complete error-free pattern writes what the pattern means |
| LogConfig.IncrementalIsFromScratch | src/log.cpp:676-737 | After any history whose notifications all get past their message to root, every name is as if the last configuration had been applied from scratch; the formatter is the last valid one ever configured, or the one before |
| LogConfig.DefinedAppendersExact | src/log.cpp:699-724 | The appenders of a definition are those of kind 1 or 2, in order: a file of the given name or standard output, at the given level, with a formatter of its own exactly if a valid non-empty pattern is given |
| LogConfig.LastFormatterGiven | src/log.cpp:694-698 | The pattern of a logger is that of the last configuration that gave it a valid non-empty one |
| LogConfig.LastFormatterKept | src/log.cpp:694-698 | Without such a configuration it is the one before |
| LogConfig.HeardExact | src/log.cpp:676-677 | Every notification of a history finds an appender on root if and only if, at each change, root was defined with appenders before, or was never defined and had one |
| LogConfig.SilencedRoot | src/log.cpp:676-677 | A configuration that defines root without appenders makes the next change fail |
| LogConfig.RetiredRoot | src/log.cpp:676-677 | So does a configuration that no longer defines root |
| LogConfig.ChangeAtName | src/log.cpp:679-736 | One notification changes a name only by its own old and new definition |
| LogConfig.FromScratchStep | src/log.cpp:676-737 | The from-scratch description moves with one notification exactly as the listener does |
| LogConfig.AddOrChangeAllAt | src/log.cpp:679-727 | The first loop touches exactly the names with a new or changed definition |
| LogConfig.DeleteAllAt | src/log.cpp:729-736 | The second loop touches exactly the names whose definition has gone |
| Loggers.LogAppender.constructor | src/log.h:176-179 | A new appender has the default level and no formatter |
| Loggers.LogAppender.SetFormatter | src/log.cpp:205-213 | The appender has a formatter of its own exactly when it was given one; a logger it is attached to keeps inheritance exactly then |
| Loggers.NewAppender | src/log.cpp:700-721 | Kind 1 gives a file of the given name and kind 2 standard output, at the level of the definition, with a formatter of its own, made from the pattern, exactly when a valid non-empty one is given |
| Loggers.DefinedAreMade | src/log.cpp:699-724 | Appenders that look as defined have, place by place, the file or standard output, the level and the own formatter of the definitions of known kind |
| Loggers.Logger.constructor | src/log.cpp:11-15 | A new logger has the default formatter, level DEBUG and no appenders |
| Loggers.Logger.AddAppender | src/log.cpp:51-57 | The appender is last; without a formatter it gets the logger's, with its own it keeps it; inheritance goes on exactly if it had none, its own, or this logger's |
| Loggers.Logger.DelAppender | src/log.cpp:59-67 | The first occurrence goes, or nothing; inheritance holds |
| Loggers.Logger.ClearAppender | src/log.cpp:69-72 | No appenders are left; inheritance holds |
| Loggers.Logger.SetFormatter | src/log.cpp:84-93 | Whatever was before, every appender without a formatter of its own has the new one afterwards, the others keep theirs |
| Loggers.Logger.SetFormatterPattern | src/log.cpp:74-82 | A valid pattern is set; an invalid one changes nothing |
| Loggers.Logger.Log | src/log.cpp:21-49 | Every appender of this logger, or of root when it has none, writes once, in order, through its own or the logger's formatter |
| Loggers.WritesView | src/log.cpp:41-48 | What a logger writes depends on what it looks like: one text per appender, by the compiled form of its own pattern or the logger's |
| Loggers.Logger.Retire | src/log.cpp:729-736 | Level 0, no appenders, formatter kept; every other logger looks as before |
| Loggers.Logger.ApplyDefinition | src/log.cpp:694-724 | The logger has the level, the appenders and, if it is valid and not empty, the pattern of its definition; every other logger looks as before |
| Loggers.Logger.ReplaceAppenders | src/log.cpp:699-724 | The appenders are those of the definitions of known kind, in order, with their files, levels and own formatters; they are new, and inheritance holds |
| Loggers.PutBack | src/log.cpp:51-93 | An appender taken out and put back around a SetFormatter keeps the old formatter: inheritance holds afterwards exactly when the two formatters are one |
| LogManager.LoggerManager.constructor | src/log.cpp:463-470 | Root exists at level DEBUG with the default pattern and one appender, to standard output |
| LogManager.LoggerManager.GetLogger | src/log.cpp:472-484 | A known name gives its logger and changes nothing; a new one is registered at level DEBUG, without appenders, with the default pattern and root behind it |
| LogManager.LoggerManager.OnLogsChanged | src/log.cpp:676-737 | The listener first logs to root; exactly when root has an appender it goes on, and then patches the loggers to the specified change of the table and nothing else; otherwise nothing is patched |
| LogManager.LoggerManager.PatchAll | src/log.cpp:679-736 | The two loops patch the loggers to exactly the specified change of the table |
| LogManager.LoggerManager.SetLogs | src/log.cpp:672-738 | Any history is followed up to the first change that finds root without an appender, to the end if and only if the configurations keep one on root. As far as it goes every defined logger has the level and, appender by appender, the files, levels and own patterns of its definition; every other one that was ever defined has level 0 and no appenders; each has the last valid pattern it was given |
| LogManager.LoggerManager.LogTo | src/log.cpp:41-48 | Logging writes by what the writing logger, or root, looks like |
| LogManager.WrittenAsDefined | src/log.cpp:700-721 | What a logger with the appenders of a definition writes: one text to each file or standard output, in order, by the meaning of its own valid pattern or else of the logger's |
| LogManager.LoggerManager.ConfigureAndLog | src/log.cpp:672-738 | From configuration to text: exactly when the history keeps an appender on root, a configured logger afterwards writes once to each defined appender, in order, the meaning of its own valid complete pattern, else of the last one configured for the logger |
| ConfigVar.NotificationChain | src/config.h:314-327 | Over every serialised run the (new, old) pairs a registered listener receives form an unbroken chain from the first value to the last, never between equal values |
| ConfigVar.SilentUnlessRegistered | src/config.h:329-345 | A listener not yet added or removed hears nothing, and its id is never reused |
| ConfigVar.HasMin | src/config.h:320 | There is a least id among those still to be called |
| ConfigVar.Variable.constructor | src/config.h:281-284 | The variable starts with its default and no listeners |
| ConfigVar.Variable.SetValue | src/config.h:314-327 | An equal value does nothing; any other is announced once to each listener in order of id, then stored, unless a listener throws: then it and those before it were called, nothing is stored, and what it threw leaves the call |
| ConfigVar.Variable.AddListener | src/config.h:329-335 | The next id of the counter, registered |
| ConfigVar.Variable.DelListener | src/config.h:337-340 | That listener is gone, the others stay |
| ConfigVar.Variable.ClearListener | src/config.h:342-345 | No listeners are left |
| ConfigVar.Variable.FromString | src/config.h:298-308 | True exactly when the text casts and no listener throws, and only then the value changes; a std::exception is caught, anything else leaves the call |
| ConfigVar.Variable.Operate | src/config.h:310-345 | Any sequence of operations on a variable: with listeners that throw nothing, the calls that each listener registered all along receives form an unbroken chain from the value before to the value after |
| ConfigTree.ListingIsLookup | src/config.cpp:7-27 | A dotted key is listed with a node if and only if its characters are valid and walking its components leads to that node |
| ConfigTree.SplitKeyOf | src/config.cpp:19 | Splitting the dotted key of a path gives the path back |
| ConfigTree.ParentsFirst | src/config.cpp:15-21 | Every listed pair but the first comes after the map it is an entry of |
| ConfigTree.EntriesInOrder | src/config.cpp:15-21 | What is listed for earlier entries of a map comes before what is listed for later ones |
| ConfigTree.ValidCharExact | src/config.cpp:10 | The characters allowed in a key are exactly those of the source's list: small letters, digits, dot and underscore |
| ConfigTree.LowerOfValid | src/config.cpp:47 | Lower-casing a valid key is the identity |
| ConfigTree.ListedAreValid | src/config.cpp:10-13 | Only valid keys are listed |
| ConfigStore.ListAllMember | src/config.cpp:7-27 | The output list grows by exactly the listing of the node |
| ConfigStore.LastCastStays | src/config.cpp:41-59 | With listeners that throw on nothing, the last listed node under the name that casts decides the value |
| ConfigStore.NothingCasts | src/config.cpp:41-59 | Without a listed node under the name that casts, the value stays |
| ConfigStore.InDocument | src/config.cpp:37-60 | A variable whose dotted name leads to a node, of whatever kind, takes what the text of the node casts to, if it casts and no listener throws on the change, and else keeps its value |
| ConfigStore.NotInDocument | src/config.cpp:37-60 | A variable whose name leads nowhere keeps its value |
| ConfigStore.StopsExact | src/config.cpp:37-60 | Loading stops early if and only if some variable's own node casts to a value at which a listener throws something other than a std::exception |
| ConfigStore.Config.LoadNode | src/config.cpp:42-58 | One listed node reaches exactly the variable of its name, and only with a value that casts and that no listener throws on; anything but a std::exception leaves the call |
| ConfigStore.Config.LookUp | src/config.h:369-395 | Known name: the variable, or nothing for another type; new name: refused when invalid, else registered with its default; no other change |
| ConfigStore.Config.LoadListed | src/config.cpp:37-60 | Loading stops exactly at the first listed node where a listener throws something other than a std::exception; up to there every registered variable has the cast of the last node under its name that casts and that no listener throws on, else its old value |
| ConfigStore.Config.LoadFromYaml | src/config.cpp:37-60 | For documents whose keys have no dots, are not empty and occur once in each map: loading goes to the end if and only if no variable's own node makes something other than a std::exception escape, and then every variable has the cast of the node its name leads to, of whatever kind, or its old value if there is none, it does not cast or a listener throws |
| ContainerCasts.CastVector | src/config.h:84-93 | Reading a sequence casts every element in order, or fails |
| ContainerCasts.CastSet | src/config.h:122-131 | Reading a set gives the values of the sequence, without order and repetition |
| ContainerCasts.CastMap | src/config.h:212-222 | Reading a map keeps the first value of each key, or fails |
| ContainerCasts.CastAllExists | src/config.h:84-93 | Reading a sequence succeeds if and only if every element casts, and puts each value in its place |
| ContainerCasts.CastEntriesExists | src/config.h:212-222 | Reading a map succeeds if and only if every value casts |
| ContainerCasts.FirstStays | src/config.h:219 | Every key of the document is in the map, with the value of the first entry that has it |
| ContainerCasts.CastEntriesKeys | src/config.h:212-222 | And no other keys |
| ContainerCasts.LoadAllExists | src/config.h:107-116 | Writing succeeds if and only if the text of every element loads as a node |
| ContainerCasts.LoadEntriesExists | src/config.h:228-237 | The same for maps |
| ContainerCasts.PrintVector | src/config.h:107-116 | Writing loads the text of every element as a node and emits the sequence, or fails |
| ContainerCasts.ListRoundTrip | src/config.h:84-116 | A container written to text reads back the same if and only if each element survives being written, emitted and cast |
| ContainerCasts.NestedRoundTrip | src/config.h:84-116 | The same for containers as elements of containers |
| ContainerCasts.MapRoundTrip | src/config.h:212-237 | The same for maps, in whatever order they are iterated |
| ConcurrentVar.SafeAlways | src/config.h:310-345 | In every interleaving no write overlaps a read or a write, every read returns the default or the latest commit, and every commit follows one call to each listener of its read section, in order of id |
| ConcurrentVar.SafeStep | src/mutex.h:160-182 | Every step of every thread keeps that |
| ConcurrentVar.SetTakesEffect | src/config.h:314-327 | In every interleaving a call of SetValue returns only when the variable has had its value at some moment of the call |
| ConcurrentVar.EditTakesEffect | src/config.h:329-345 | In every interleaving AddListener, DelListener and ClearListener return only after a step that registered a new identifier, removed theirs, or removed all |
| ConcurrentVar.EditStep | src/config.h:329-345 | No other step changes the listeners, and a new identifier is greater than all before |
| ConcurrentVar.ChainExact | src/config.h:314-327 | Over every run the pairs announced, in the order in which calls compare, form an unbroken chain from the default if and only if calls of SetValue take turns from comparison to store |
| ConcurrentVar.ListenerChain | src/config.h:320-322 | While calls take turns, a listener that stays registered receives an unbroken chain from the value it knew to the last it hears of |
| ConcurrentVar.SerialChain | src/config.h:314-327 | While calls take turns, the stored values chain as well |
| ConcurrentVar.OverlapBreaksChain | src/config.h:323-326 | From any default and for any two other values, two overlapping calls can break the chain of announcements and that of stores |
| ConcurrentVar.StoresHideBrokenChain | src/config.h:323-326 | A run in which the stores chain and the announcements do not |
| SpinGuards.MutualExclusion | src/mutex.h:39-68 | In every reachable state the flag is set exactly when one guard has acquired it and not released it, and only that guard's own step clears it |
| SpinGuards.ExclusiveStep | src/mutex.h:214-234 | Every atomic step of any guard keeps exclusion |
| SpinGuards.Lock.EnterLock | src/mutex.h:42-57 | Construction and Lock() enter the spin loop, leave the flag and its owner alone and keep exclusion; a held guard does nothing |
| SpinGuards.Lock.TestAndSet | src/mutex.h:225-227 | A turn of the spin loop succeeds exactly when nobody owned the flag; in vain it changes nothing; exclusion is kept |
| SpinGuards.Lock.SetLocked | src/mutex.h:55 | The guard that remembers the lock is the one owner |
| SpinGuards.Lock.Unlock | src/mutex.h:48-64 | A held guard, also a dying one, leaves no owner and a clear flag; any other leaves flag and owner alone, and is gone afterwards exactly if it dies |
| SpinGuards.Lock.ResetLocked | src/mutex.h:62 | Forgetting a lock that was freed leaves the present owner alone; the guard is gone exactly if it dies, else ready again |
| LockOrder.DeadlockFree | src/log.cpp:41-48 | For any programs of logger, manager, appender and configuration operations, Visit included, and any schedule, locks are never held in conflicting modes and some thread can step while one is unfinished |
| LockOrder.OpUsesAscend | src/log.cpp:676-737 | Every nested acquisition of every operation, the listener's included, ascends in rank |
| LockOrder.AscendingIsOrdered | src/mutex.h:39-68 | Guards that nest in ascending rank acquire and release in order, and release everything |
| LockOrder.SomeoneSteps | src/mutex.h:160-182 | Threads that acquire in ascending rank never all wait for each other |
| FiberModel.StepSound | src/fiber.cpp:34-183 | From a sound world no pointer dangles; an assertion fails exactly when the last reference to a fiber in EXEC is dropped, a fiber not in INIT, TERM or EXECPT is reset, or one not in INIT, HOLD or READY is swapped in (or any before there is a main fiber); else the next world is sound |
| FiberModel.SwapInSound | src/fiber.cpp:98-105 | Control is at the start of a new fiber or inside the yield behind its last segment, the fiber is current and in EXEC, and main waits behind the call |
| FiberModel.BeginSound | src/fiber.cpp:156-161 | MainFunc finds as current the very fiber on whose stack it runs, takes one reference, and is before the first segment |
| FiberModel.ContinueSound | src/fiber.cpp:131-143 | A yield that returns gives up its own reference, and only that, and goes on with the next segment |
| FiberModel.YieldSound | src/fiber.cpp:131-143 | A yield leaves the fiber in the state that it yields to, owning itself twice, its trace longer by the segment just run, and main at the step behind its latest SwapIn |
| FiberModel.FinishSound | src/fiber.cpp:156-182 | At the end of MainFunc, by return or either exception, the whole body has run, a reference is left for the switch that follows, and main is behind its latest SwapIn |
| FiberModel.DropSound | src/fiber.cpp:64-79 | The destructor's assertion fails exactly when the last reference to a fiber in EXEC is dropped |
| FiberModel.ShareSound | src/fiber.h:33 | A further reference is counted, and nothing else changes |
| FiberModel.CreateSound | src/fiber.cpp:45-62 | A new fiber has the given body, an empty trace, INIT, one reference, the next identifier and a stack that no live fiber has; no other fiber changes |
| FiberModel.ResetSound | src/fiber.cpp:81-96 | Reset gives the fiber the new body, at its start, in INIT and with an empty trace, on the same stack and with the same identifier and references; no other fiber changes, nothing is allocated or freed |
| FiberModel.GetThisSound | src/fiber.cpp:116-125 | After GetThis the thread has a main fiber; the first call makes and counts it, another changes no fiber |
| FiberModel.ExitSound | src/fiber.cpp:69-77 | The main fiber is in EXEC and current when it goes; afterwards there is none, the current pointer is null and the count one less |
| FiberRuns.RunSound | src/fiber.cpp:34-183 | Over every run of any number of threads the world stays sound, and an assertion can fail next exactly in the cases of StepSound |
| FiberRuns.OnlyStdTrips | src/fiber.cpp:164-168 | The assertion of the destructor fails only on a fiber whose body ended by a std::exception |
| FiberRuns.StdExceptionTrips | src/fiber.cpp:64-67 | Such a run exists: a body of one segment that throws a std::exception is enough |
| FiberRuns.FinishedAfterExactly | src/fiber.cpp:156-183 | A body with k yields has ended after exactly k + 1 SwapIns, in TERM exactly if it returns, in EXECPT exactly if it throws something else than a std::exception, with the matching trace |
| FiberRuns.RunsWhatWasGiven | src/fiber.cpp:81-96 | Over every run, from a Create or Reset with a body up to the next Reset, n SwapIns run the first n segments of that very body, in order, and leave the fiber in the state of its n-th yield or of the way it ends |
| FiberRuns.FailsExactly | src/fiber.cpp:64-105 | A step fails if and only if it drops the last reference to a fiber in EXEC, resets one in HOLD, READY or EXEC, or swaps in one in TERM, EXECPT or EXEC or without a main fiber |
| FiberRuns.RefsCounted | src/fiber.h:33 | Over every run a fiber has the references from outside that it had, plus those shared, less those dropped |
| FiberRuns.DriverTerminates | src/fiber.cpp:98-112 | The SwapIns a driver makes on unfinished fibers are exactly what the sum of remaining segments falls by, which never goes below 0 |
| FiberRuns.EveryFiber | src/fiber.cpp:98-183 | In every state of every run a fiber has run a beginning of its body, one segment for each SwapIn and all of them exactly when it has ended; HOLD and READY fibers own themselves through their own stack |
| FiberRuns.OnlyFinishedDie | src/fiber.cpp:64-79 | In any step that fails no assertion a fiber lives on with its stack not freed, or its last reference goes, in INIT, TERM or EXECPT, and its stack is freed with it |
| FiberRuns.StackFixed | src/fiber.cpp:81-96 | Over every run a fiber keeps its one stack through all Resets, a live stack was never freed, and none is freed twice |
| FiberRuns.OneRunning | src/fiber.cpp:98-129 | Main is in EXEC, and the current fiber is main with no sub-fiber being run or the only sub-fiber that is; any other fiber in EXEC has ended by a std::exception |
| FiberRuns.Totals | src/fiber.cpp:145-147 | Over every run identifiers are positive and pairwise distinct and TotalFibers counts the live fibers |
| FiberRuns.LaterIdsAreGreater | src/fiber.cpp:45-48 | Over every run a fiber made later has an identifier greater than all handed out before, those of dead fibers included |
| FiberRuns.BackWhereItLeft | src/fiber.cpp:107-112 | The first state in which control is back in main is the one exactly behind the SwapIn that it left from |
| FiberRuns.SwapInComesBack | src/fiber.cpp:98-112 | A SwapIn that main makes in its n-th step returns, if it does, first to step n + 1 |
| FiberRuns.NeverStuck | src/fiber.cpp:156-183 | Inside a fiber the next step is always there |
| FiberRuns.RoundTrip | src/fiber.cpp:98-112 | The small steps of a SwapIn up to its return amount to one resumption: one segment, one fiber, main one step further |
| Fibers.Fiber.ForThread | src/fiber.cpp:34-43 | The main fiber is in EXEC, current, counted, without stack |
| Fibers.Fiber.constructor | src/fiber.cpp:45-62 | Next identifier, own stack, INIT, the given function at its start, one reference, counted |
| Fibers.Fiber.Destroy | src/fiber.cpp:64-68 | Counted down and its stack freed |
| Fibers.Fiber.Drop | src/fiber.cpp:64-79 | The fiber goes exactly with the last reference of all, and then in INIT, TERM or EXECPT |
| Fibers.Fiber.Reset | src/fiber.cpp:81-96 | The new function, at its start, in INIT with an empty trace, on the same stack with the same identifier and references |
| Fibers.Thread.GetThis | src/fiber.cpp:116-125 | The current fiber; the first call makes the main fiber |
| Fibers.Thread.SwapOut | src/fiber.cpp:107-112 | Main is current and goes on where it was saved; the fiber is saved where it stood |
| Fibers.Thread.Enter | src/fiber.cpp:156-161 | Into the body at the right segment with one reference on the stack |
| Fibers.Thread.YieldTo | src/fiber.cpp:131-143 | One segment run, the fiber HOLD or READY as it asked, main back |
| Fibers.Thread.EndMain | src/fiber.cpp:161-180 | The last segment run, the fiber TERM, EXECPT, or still EXEC after a std::exception, main back |
| Fibers.Thread.SwapIn | src/fiber.cpp:98-105 | The whole call is exactly one resumption: the next segment is run, the state is that of its yield or of the end, and main is one step further |
| Fibers.TestFiber | tests/test_fiber.cpp:13-21 | A fiber that yields once is HOLD after the first SwapIn and TERM after the second, its two segments run in order |

## Left out

- Sockets, epoll and the server loop: system calls. The driver is modelled as appending bytes behind those already read; the `recv` of tests/test_server.cpp:134 is given the start of the buffer instead.
- Debug logging inside the parser, which also reads the buffer as a C string; and the width of its `int` indices.
- A check status other than the two of the enumeration: there is none, so the default branch of `parse_content`, and with it INTERNAL_ERROR, cannot be reached.
- strftime, localtime and the texts of single items: the text of an item is an arbitrary function of the event.
- Files and standard output: writing is modelled as the list of appenders and texts, in order; reopening files is left out.
- The casts between `LogDefine` and text: a configuration is taken as a list of definitions with distinct names. Printing and reading do not give a definition back, since an appender's formatter is read into its file (src/log.cpp:617-623) and its level and formatter are not printed (src/log.cpp:649-664).
- YAML text and `boost::lexical_cast`: a node carries the text it is emitted as, and casts of single elements are arbitrary partial functions.
- ConfigStore.Config.LookUp: models a store of one value type, with a tag for the others; the dynamic cast is a comparison of tags.
- `Config::Visit`, `ToString` of a variable, `GetFiberId` and the `ToYamlString` methods: they read one field or hand each element to library code; the locks that `Visit`, `ToString` and `ToYamlString` take are in LockOrder.
- The messages to root at src/config.h:292, 304, 378 and 387, which like that of the listener need root to have an appender, and the one to the logger `system` at src/config.cpp:11.
- ConfigStore.Config.LoadFromYaml: listeners called while loading do not change the registry or other variables; for documents with repeated, empty or dotted keys it is LoadListed and LastCastStays that say which node counts.
- ConfigVar.NotificationChain: is about runs in which no listener throws; ConfigVar.Variable.SetValue says what a call does when one throws.
- Loggers.Logger.AddAppender: on a logger or an appender that broke inheritance before, only the new list and the appender's own formatter are stated.
- ConcurrentVar.SafeAlways: the static counter of listener ids is that of one variable; in the source all variables of a type share it without a common lock.
- The wrap-around of 64-bit identifiers and counters.
- pthread and semaphore internals and memory orders: a read-write lock admits readers together or one writer alone, and an atomic flag is read and set in one step.
- `Mutex`, `SpinLock` and the read and write guards as code of their own: they have the shape of the guard that is modelled; in LockOrder all guards are scoped.
- Uses that the source's documentation rules out: SwapIn from a sub-fiber or of the main fiber; a yield from main; a fiber on several threads; dropping the reference used for a SwapIn before it returns.
- Handles to a main fiber that outlive its thread; references that a fiber's function captures count as references from outside.
- Fibers.Thread.SwapIn: the states that the library asserts are its requirements, as in Fibers.Fiber.Reset and Fibers.Fiber.Drop, and what happens otherwise is in FiberModel; one segment is one recorded number, and what else user code in a body does (making, sharing, dropping and resetting other fibers) is in FiberModel only.
- FiberModel.CreateSound: the identifier and the count go up in one step; the two atomic increments of the source are separate.
- The scheduler, the thread pool, the timer and the thread class: declarations, stubs or endless loops without an algorithm.
