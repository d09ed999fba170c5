# tinfra: a verified model

tinfra is a C++ utility library. This project models its most intricate parts in
Dafny and proves what they are for: a path query evaluator over variant trees, a
JSON reader and writer, monitor-based concurrency, file-tree algorithms, an XML
event builder and writer, and several smaller imperative cores. Check it with
`dafny verify dfyconfig.toml`.

What the source changes in place is a class or an array here, with methods whose
contracts tie the new state to the old one through a specification function;
what the source promises is proved about those functions as lemmas. `Common` holds
what several parts share.

## The parts

**Variant trees and path queries** (`Variants`, `VtPathSpec`, `VtPath`,
`VtPathPattern`, `VtPathOrder`, `VtPathParse`). The evaluator keeps a stack of
(node, iterator, command) states and a result queue. Its specification is a
recursive denotation of a command list on a tree, `Answers`, which also says how
a run ends: it finishes, an assertion fails, or it loops without progress. The
class `VtPathVisitor` is proved to fetch exactly that sequence. On top of it:
a node is answered as often as its path matches the commands read as a pattern;
a run fails exactly when a non-recursive name meets an array; with at most one
recursive step nothing is answered twice; the answers come in the order of the
routes that lead to them, the last step from top to bottom and all others from
bottom to top; `$..*` is the preorder of all proper descendants; the stack is an ancestor chain no longer than twice the height of
the tree. Here the height of a tree counts a lone container as 1.

**JSON** (`Streams`, `JsonSpec`, `JsonLexer`, `JsonGrammar`, `JsonValue`,
`JsonParser`, `JsonWriter`, `JsonRoundTrip`, `JsonStrings`, `JsonSyntax`). The lexer reads a
source with arbitrary short reads through a ten-byte buffer; the parser keeps
one current token. That token stays after the end of the input, so closing
brackets may be missing: the parser accepts exactly the token sequences that
become grammatical when their last closing token is repeated, and for balanced
input exactly the grammar. The writer produces `Render`, and reading that back
gives the tree exactly when it holds no none and no bool, its strings and keys are
printable ASCII without quote and backslash, plus line feed and carriage return,
and its doubles are printed with a fraction or an exponent. No other tree comes
back, whatever text its strings make the reader take for tokens: a string read
from a text that is written from itself cannot hold a backslash. What single characters are
read as and written as is stated from RFC 4627 (sections 2.1 to 2.5 and 3).

**Concurrency** (`BlockingQueue`, `ThreadPool`, `Pipe`). Threads hold the
monitor for whole turns, so a system is a state machine whose steps are turns of
any thread, in any interleaving, with spurious wake-ups. Proved over every run:
no sleeper is forgotten although broadcasts are conditional; first in, first
out, each item once; shutdown by one empty job per worker never deadlocks, ends,
and when the join is over a job is done exactly when fewer empty jobs than
workers were put before it; a pipe delivers a prefix of what was written, and
reports the end only after close and everything delivered, and then always. What
was written, put and called is told from the calls alone, and there are runs in
which every job is done and every byte read.

**File trees** (`Vfs`, `Lister`). Recursive copy and removal as framed updates of
a tree, including the copy into an existing directory, a missing source, a file
in the way, missing parents, and a directory copied into itself, which nests its
calls to every depth; the explicit-stack lister with pruning, and the
recursive walk that visits the same entries.

**XML** (`XmlEvents`, `XmlWriter`, `XmlBuilder`, `XmlRoundTrip`, `XmlLayout`). Builder calls
become well-nested events; the writer's nesting counter counts open elements;
the compact text of a document is read by a reference reader as the same events, up
to the pieces character data comes in and the white space XML normalises, and it
is proved exactly which events come back unchanged, of all that can be written.
The reader follows XML 1.0: sections 2.1 (one root element), 2.2 (characters), 2.3
(names), 2.4 (character data), 2.11 (line ends), 3 (nesting), 3.1 (attributes used
once), 3.3.3 (attribute values) and 4.6 (predefined entities). The text for human
readers is described line by line.

**Ownership** (`SharedPtr`). Handles, counters and objects in an explicit memory,
with handles inside the objects: each counter counts its handles, each object is
deleted once, with its last handle, and so are its members in turn. Which objects
an operation deletes is said by the state before it: exactly those that are left
without a share one after the other, everyone who holds one of them being a member
of an earlier one.

**Smaller cores** (`BufferedStream`, `IntToString`, `Options`, `IniFile`,
`IniRoundTrip`). Buffered reading and copying with short reads and writes;
digits in a bounded buffer; in-place option parsing; ini files written and read.

## Where the code and its description differ

- The JSON writer prints none as `nil`, which the reader refuses, and prints
  nothing for a bool; `escape_c` leaves quotes and backslashes alone; `\u`
  shifts by eight bits a digit, so it reads as its character exactly for codes
  below 16 and refuses all others, `\u0041` among them
  (`JsonStrings.UnicodeEscape`, `JsonStrings.LetterRefused`). A double printed
  without fraction or exponent comes back as an integer
  (`JsonStrings.RoundTripExactly`).
- The JSON parser accepts texts whose closing brackets are missing at the end,
  such as `[[]` (`JsonGrammar.UnclosedExample`), exactly when the last closing
  token stands for them (`JsonGrammar.AcceptsExactly`).
- A path expression with a character that begins nothing, or with one dot before
  something that is no selector, makes the visit loop for ever
  (`VtPathParse.UnknownCharacter`, `VtPathParse.NoPatterns`); a bracket at its end
  is ignored (`VtPathParse.BracketExactly`).
- `operator==` on variants has no case for bools: a tree that holds one is not
  equal to itself, like one that holds a NaN (`Variants.EqualsExactly`).
- `xml_builder::close` asserts that the element stack is empty, which an element
  that was started but not yet written does not prevent (`XmlBuilder.CloseExactly`,
  `XmlBuilder.ClosedWhilePending`). `end_element` forgets such an element and
  leaves its attributes to the next one: what is written then is what the calls
  mean exactly if no element is pending (`XmlBuilder.Builder.EndElement`,
  `XmlBuilder.EndElementDropsPending`).
- `write_content_bytes` escapes only `<` and `&`, but the section of XML 1.0 it
  names also forbids `]]>`. Neither builder nor writer looks at names, control
  characters, attributes used twice, text outside the root or a second root, which
  XML refuses; and a carriage return in text, or a tab or line end in a value, comes
  back changed. All other documents come back (`XmlRoundTrip.DocumentBackExactly`,
  `XmlRoundTrip.SectionEndRefused`, `XmlRoundTrip.RepeatedNameRefused`,
  `XmlRoundTrip.TwoRootsRefused`).
- Copying a file onto itself empties it, since the destination is truncated
  before the source is read (`Vfs.Copy`).
- `shared_ptr::reset` clears its pointer after the object is gone. If the handle
  went too, that write is to freed memory: exactly if the handle is a member of an
  object that its own share alone kept alive, directly or through others
  (`SharedPtr.Memory.Release`, `SharedPtr.ResetInRing`). Assignment has no such
  write. A handle whose share was not the last keeps its pointer after `reset`.
- `signed_integer_to_string` counts digits only against the buffer size, so for
  a negative value without room for the sign it writes one cell past the buffer
  (`IntToString.SignedToString`).
- An ini value of blanks and line ends that begins with a carriage return comes
  back whole, because the length computed for it is negative
  (`IniRoundTrip.ValueBack`).

## Model

| member | source | states |
|---|---|---|
| Variants.FindKey | tinfra/vtpath.cpp:313 | dictionary lookup: the first entry with the key, or the end |
| Variants.KeyLessExactly | tinfra/variant.cpp:11-13 | dictionary keys are ordered by a proper prefix first, then by the first difference |
| Variants.SortedKeysDistinct | tinfra/vtpath.cpp:308-319 | a sorted dictionary has each key once, so a name names one child |
| Variants.KeyLessTotal | tinfra/variant.cpp:11-13 | the order of dictionary keys is total |
| Variants.EqualsExactly | tinfra/variant.cpp:65-99 | `operator==` holds exactly for trees that are equal up to the spelling of their doubles and hold no bool and no NaN |
| VtPathSpec.WorkOfKid | tinfra/vtpath.cpp:301-304 | a child's work and one iteration fit into the work left on its container: the measure of termination |
| VtPath.StackBounded | tinfra/vtpath.cpp:181-202 | the states of a run's stack form an ancestor chain, so there are fewer than twice the height of the tree |
| VtPath.VisitKeepsOwed | tinfra/vtpath.cpp:273-307 | visiting one child under a wildcard or a recursive step: queued answer and new stack together owe what the old stack owed, in order, with less work |
| VtPath.NamedKeepsOwed | tinfra/vtpath.cpp:308-319 | the jump to the entry a name selects owes the same answers as before, with less work |
| VtPath.BadSelectorOwed | tinfra/vtpath.cpp:298-300 | a recursive step before anything but a selector is an assertion failure |
| VtPath.VtPathVisitor.constructor | tinfra/vtpath.cpp:205-217 | a new visitor owes the whole denotation of the commands on the tree |
| VtPath.VtPathVisitor.MatchFound | tinfra/vtpath.cpp:168-180 | a match answers the node after the last command and otherwise pushes it |
| VtPath.VtPathVisitor.PushContainer | tinfra/vtpath.cpp:181-202 | only containers are pushed, at their first child, unfinished |
| VtPath.VtPathVisitor.VisitChild | tinfra/vtpath.cpp:271-307 | one turn over one child updates stack and queue as the specification says, or meets a selector that is none |
| VtPath.VtPathVisitor.PopState | tinfra/vtpath.cpp:247-251 | popping a state that owes nothing changes no answer and uses up work |
| VtPath.VtPathVisitor.FinishMatching | tinfra/vtpath.cpp:305-307 | marking an exhausted state finished changes no answer and uses up work |
| VtPath.VtPathVisitor.VisitNamed | tinfra/vtpath.cpp:308-319 | the named entry is matched, the state finished, and no answer lost |
| VtPath.VtPathVisitor.VisitNext | tinfra/vtpath.cpp:320-352 | a turn on dictionary or array keeps the remaining answers, or is the assertion failure the specification has there |
| VtPath.VtPathVisitor.FetchNext | tinfra/vtpath.cpp:240-370 | returns the next answer of the denotation, the end, the assertion failure or the endless loop exactly where the denotation has it; at most one answer is ever queued; it terminates otherwise |
| VtPathPattern.AnswerMultiplicity | tinfra/vtpath.cpp:271-350 | on a run that does not fail, a node is answered as often as its root path matches the commands |
| VtPathPattern.FailsExactlyWhen | tinfra/vtpath.cpp:353-354 | a run fails exactly when a non-recursive name is applied to an array its steps reach, and never loops |
| VtPathPattern.OneWay | tinfra/vtpath.cpp:255-256 | with at most one recursive step a path matches in at most one way |
| VtPathPattern.NoDuplicates | tinfra/vtpath.cpp:301-304 | with at most one recursive step no node is answered twice |
| VtPathOrder.EverythingInPreorder | tinfra/vtpath.cpp:284-304 | `$..*` answers exactly the proper descendants of the root, once each, in preorder |
| VtPathOrder.AnswersInOrder | tinfra/vtpath.cpp:301-350 | a run that does not fail answers the ends of all routes of the pattern, each route once: by the first step that picks another node, the last step top down, all others bottom up |
| VtPathParse.ParseSelector | tinfra/vtpath.cpp:73-91 | after an opening bracket only `*]` is accepted |
| VtPathParse.ParseName | tinfra/vtpath.cpp:121-129 | a name is the longest run of letters, digits and underscores |
| VtPathParse.WordChars | tinfra/vtpath.cpp:124 | names are made of the ASCII letters, the digits and the underscore |
| VtPathParse.BracketExactly | tinfra/vtpath.cpp:73-91 | `[*]` reads as `*` whatever follows; a bracket at the end is ignored; any other bracket is refused |
| VtPathParse.UnknownCharacter | tinfra/vtpath.cpp:120-131 | a character that begins nothing makes parsing go on for ever |
| VtPathParse.OnlyFromRoot | tinfra/vtpath.cpp:205-217 | only an expression that begins with `$` gives nodes |
| VtPathParse.NoPatterns | tinfra/vtpath.cpp:255-354 | what `$a`, `$*`, `$$`, `$.`, `$..`, `$.$` and `$..$` do on a container: nothing, an assertion failure, or no end |
| VtPathParse.Parse | tinfra/vtpath.cpp:93-135 | parsing consumes the expression piece by piece, and never ends on a character that makes no progress |
| VtPathParse.ReadText | tinfra/vtpath.cpp:93-135 | the text of any pattern, with each wildcard written as `*` or `[*]`, is parsed into that pattern's commands |
| VtPathParse.CollectAll | tinfra/vtpath.cpp:240-370 | repeated fetching yields the remaining answers in order, and stops as the denotation says |
| VtPathParse.Visit | tinfra/vtpath.cpp:205-217 | from expression text to answers: the meaning of the parsed commands, a refusal of expressions not starting at the root, or no return |
| VtPathParse.VisitPattern | tinfra/vtpath.cpp:93-370 | a visit with a pattern written as text, in either spelling, always returns: it throws exactly when a name meets an array, and otherwise gives every node as often as its path matches |
| Streams.InputStream.Read | tinfra/stream.h:14-21 | a read returns any number of the next bytes up to the size asked for, and 0 only at the end |
| JsonLexer.Lexer.ReadForSure | tinfra/json.cpp:467-481 | short reads are repeated until the length or the end is reached; the bytes are the source's, in order |
| JsonLexer.Lexer.FillBuffer | tinfra/json.cpp:442-465 | buffered and unread bytes together stay the same, the pointers stay in the ten-byte buffer, and the end is noted exactly when nothing is left |
| JsonLexer.Lexer.Next | tinfra/json.cpp:483-499 | the next character is the next byte of the source; at the end the current one stays |
| JsonLexer.Lexer.Start | tinfra/json.cpp:501-546 | encoding detection from the first four bytes refuses all but UTF-8 and loses no byte |
| JsonLexer.Lexer.ConsumeHex | tinfra/json.cpp:598-615 | four hexadecimal digits, each shifted in by eight bits |
| JsonLexer.Lexer.ConsumeEscape | tinfra/json.cpp:585-620 | an escape adds the character it stands for to the token, or fails where the specification does |
| JsonLexer.Lexer.ConsumeString | tinfra/json.cpp:573-629 | a string token is the scan of the characters up to its closing quote |
| JsonLexer.Lexer.ConsumeNumber | tinfra/json.cpp:631-658 | a number token is the longest run of number characters; a fraction or exponent character makes it a double |
| JsonLexer.Lexer.ConsumeKeyword | tinfra/json.cpp:660-673 | a keyword is read exactly when the input continues with it |
| JsonLexer.Lexer.FetchNext | tinfra/json.cpp:691-764 | the next token of the characters ahead, the end, or an error, with the rest left ahead |
| JsonGrammar.SoundNode | tinfra/json.cpp:86-199 | what a parsed value consumed, plus the rereads of the last token, is the value's spelling |
| JsonGrammar.CompleteNode | tinfra/json.cpp:86-199 | every spelled value is parsed, also when its end is missing and the last closing token stands for it |
| JsonGrammar.AcceptsExactly | tinfra/json.cpp:49-199 | a token sequence is accepted as a tree exactly when some number of repetitions of its last closing token makes it that tree's spelling |
| JsonGrammar.AcceptsUnclosed | tinfra/json.cpp:79-199 | the number of repetitions is the number of brackets left open; for balanced input acceptance is the strict grammar |
| JsonValue.IntRoundTrip | tinfra/json.cpp:249-253 | every 64-bit integer is the value of its text |
| JsonValue.LastDuplicateWins | tinfra/json.cpp:141-148 | of several members with one key the last gives the value |
| JsonValue.NoOtherKeys | tinfra/json.cpp:141-148 | a dictionary has no keys but those of its members |
| JsonValue.ToVariantWellFormed | tinfra/json.cpp:122-163 | what is built is a variant tree with ordered, distinct keys |
| JsonParser.Parser.Next | tinfra/json.cpp:49-55 | advances one token; at the end the current token stays |
| JsonParser.Parser.ParseNode | tinfra/json.cpp:86-120 | a node is the value the grammar has at this point, or none after the end, or a failure |
| JsonParser.Parser.ParseObject | tinfra/json.cpp:122-132 | an object, empty or not, agrees with the grammar |
| JsonParser.Parser.ParseMember | tinfra/json.cpp:134-148 | a key, a colon and a value, failing where the grammar does |
| JsonParser.Parser.MemberTurn | tinfra/json.cpp:133-162 | one turn of the member loop puts the member into the dictionary and goes on, ends or fails |
| JsonParser.Parser.ParseMembers | tinfra/json.cpp:133-163 | the member loop builds the dictionary of all members |
| JsonParser.Parser.ParseArray | tinfra/json.cpp:165-174 | an array, empty or not, agrees with the grammar |
| JsonParser.Parser.ElemTurn | tinfra/json.cpp:176-198 | one turn of the element loop appends the element and goes on, ends or fails |
| JsonParser.Parser.ParseElems | tinfra/json.cpp:176-199 | the element loop builds the array of all elements |
| JsonParser.Parser.ParseAll | tinfra/json.cpp:79-85 | the whole input is one value and nothing else; an input without tokens is none |
| JsonParser.JsonParse | tinfra/json.cpp:201-215 | `json_parse`: the value of the accepted derivation of the input's tokens, or a failure |
| JsonWriter.EscapeC | tinfra/string.cpp:90-116 | the in-place loop escapes line feeds, carriage returns and unprintable characters, and nothing else |
| JsonWriter.Renderer.String | tinfra/json.cpp:242-248 | a string is written escaped between quotes |
| JsonWriter.Writer.BeginObject | tinfra/json.cpp:288-293 | opens an object on the stack and forgets the separator |
| JsonWriter.Writer.BeginArray | tinfra/json.cpp:307-312 | opens an array on the stack and forgets the separator |
| JsonWriter.Writer.EndObject | tinfra/json.cpp:326-334 | closes the innermost object and asks for a separator |
| JsonWriter.Writer.EndArray | tinfra/json.cpp:335-343 | closes the innermost array and asks for a separator |
| JsonWriter.Writer.Value | tinfra/json.h:150-159 | a value is written after a comma if one is due; the stack is as before |
| JsonWriter.Writer.NamedValue | tinfra/json.h:161-172 | a member is written after a comma if one is due; the stack is as before |
| JsonWriter.Writer.ValueImpl | tinfra/json.cpp:355-398 | a variant is written by its type: none as nil, a bool not at all |
| JsonWriter.Writer.Dict | tinfra/json.h:184-192 | a dictionary is written as its members, separated by commas |
| JsonWriter.Writer.Array | tinfra/json.h:174-182 | an array is written as its elements, separated by commas |
| JsonWriter.JsonWrite | tinfra/json.cpp:400-415 | the text of a tree, from an empty stack and without a separator due |
| JsonRoundTrip.ReadQuoted | tinfra/json.cpp:573-629 | a clean string written is read as the same string token |
| JsonRoundTrip.ReadInt | tinfra/json.cpp:631-658 | an integer written is read as one integer token with its text |
| JsonRoundTrip.ReadDouble | tinfra/json.cpp:631-658 | a double printed with a fraction or an exponent is read as one double token with its text |
| JsonRoundTrip.ReadBack | tinfra/json.cpp:355-380 | the text of a tree is tokenized as the tree's spelling, whatever follows |
| JsonRoundTrip.SameValue | tinfra/json.cpp:86-199 | the value of a tree's spelling is the tree |
| JsonRoundTrip.WrittenReadsBack | tinfra/json.h:150-192 | `json_parse(json_write(v)) == v`, character by character, for dictionaries, arrays, 64-bit integers, clean strings and doubles printed as such |
| JsonStrings.SmallCodes | tinfra/json.cpp:598-615 | four hexadecimal digits are accepted exactly if the first three are 0, that is below 16, and then give their value |
| JsonStrings.UnicodeEscape | tinfra/json.cpp:598-615 | a `\u` escape with four digits reads as its character exactly below 16, and is an error otherwise |
| JsonStrings.TokensRead | tinfra/json.cpp:573-764 | every end of a string token is itself read from some place in the text, and a double token has a fraction or an exponent |
| JsonStrings.ParsedFrom | tinfra/json.cpp:86-199 | every string, key and double of a parsed tree is a token of the text, also when its last token was read again |
| JsonStrings.RenderWritten | tinfra/json.cpp:242-248 | every backslash in the text of a tree begins the escaped end of one of its strings |
| JsonStrings.RunRead | tinfra/json.cpp:585-591 | a run of backslashes is read from one at least twice as long |
| JsonStrings.RunsAreShort | tinfra/string.cpp:90-109 | where every string is read from a text written from these strings, no two backslashes follow each other |
| JsonStrings.BackslashRead | tinfra/json.cpp:585-620 | there, a backslash is read only where one stands before an escape, and the letter of that escape is read after it |
| JsonStrings.NoBackslash | tinfra/string.cpp:90-109 | so no string there holds a backslash |
| JsonStrings.CleanRead | tinfra/json.cpp:573-629 | and only clean characters are read |
| JsonStrings.RoundTripExactly | tinfra/json.cpp:355-398 | a tree of dictionaries, arrays, strings, 64-bit integers, printed doubles, none and bools comes back exactly when it holds no none and no bool, all its strings and keys are clean, and its doubles have a fraction or an exponent |
| JsonStrings.StringRoundTripExactly | tinfra/string.cpp:90-109 | a string is read back as itself exactly when all its characters are clean |
| JsonSyntax.SpelledRead | tinfra/json.cpp:585-620 | a string spelled with the two-character escapes of section 2.5 of RFC 4627 and closed by a quote is read as itself, whatever follows |
| JsonSyntax.OtherEscapeRefused | tinfra/json.cpp:616-618 | any other letter than those and u after a backslash is an error |
| JsonSyntax.UnclosedRefused | tinfra/json.cpp:573-629 | a string without a closing quote is an error |
| JsonSyntax.HexValues | tinfra/json.cpp:598-615 | the sixteen hexadecimal digits, small or capital, have their values |
| JsonSyntax.BadCodeRefused | tinfra/json.cpp:602-609 | `\u` with fewer than four hexadecimal digits is an error |
| JsonSyntax.BlankSkipped | tinfra/json.cpp:691-764 | blank, tab, line feed and carriage return separate tokens |
| JsonSyntax.WordRead | tinfra/json.cpp:660-673 | the three words are read as their tokens |
| JsonSyntax.Refused | tinfra/json.cpp:691-764 | any other character that begins no token is an error |
| JsonSyntax.NumberRead | tinfra/json.cpp:631-658 | a number is the longest run of digits, signs, points and e, and a double exactly if it has a point or an e |
| JsonSyntax.IntegerRead | tinfra/json.cpp:102-107 | a sign and digits are read as the nearest 64-bit integer; what follows them is ignored |
| JsonSyntax.EncodingDetected | tinfra/json.cpp:501-546 | two ASCII characters in each of the five encodings are detected as that encoding |
| JsonSyntax.Utf8Exactly | tinfra/json.cpp:501-546 | a text is taken for UTF-8 exactly if it is one byte or neither of its first two is NUL |
| JsonSyntax.ReadsExactly | tinfra/json.cpp:49-215 | exactly which texts `json_parse` reads as which value |
| JsonSyntax.WrittenAsIs | tinfra/string.cpp:90-109 | exactly the characters from 32 to 126 are written as they are |
| JsonSyntax.WrittenByNumber | tinfra/string.cpp:100-109 | every other byte but line feed and carriage return is written as `\x` and its two hexadecimal digits |
| JsonSyntax.NoneWritten | tinfra/json.cpp:355-398 | none is written as `nil`, which is refused, and a bool as nothing |
| BlockingQueue.WakeupsKept | tinfra/queue.h:19-37 | although puts onto a nonempty list wake nobody, a sleeper always means an empty list |
| BlockingQueue.Queue.Put | tinfra/queue.h:19-25 | appends, and wakes all sleepers exactly if the list was empty |
| BlockingQueue.Queue.GetTurn | tinfra/queue.h:27-37 | takes the front, or goes to sleep on an empty list |
| BlockingQueue.Queue.Peek | tinfra/queue.h:39-50 | takes the front without waiting, and forgets no sleeper |
| ThreadPool.StepKeeps | tinfra/thread_runner.h:53-90 | every turn of every thread keeps the invariant of pool and queue |
| ThreadPool.PoolHistory | tinfra/thread_runner.h:53-72 | a pool made with so many threads has so many workers, and its queue has been given what clients and destructor put, in that order |
| ThreadPool.PoolSafety | tinfra/thread_runner.h:74-90 | in any interleaving: a sleeper means an empty queue, items leave in the order of puts, each once, and a worker has taken one empty job if it exited and none otherwise |
| ThreadPool.PillsAddUp | tinfra/thread_runner.h:63-65 | the empty jobs taken by all workers are those that left the queue |
| ThreadPool.NotAllAsleep | tinfra/thread_runner.h:61-67 | once all empty jobs are put, a worker that has not exited cannot be left asleep with nobody able to move |
| ThreadPool.NoDeadlock | tinfra/thread_runner.h:61-67 | during shutdown some step is possible until the join is over |
| ThreadPool.JoinedPool | tinfra/thread_runner.h:61-90 | after the join all the threads the pool was made with have exited, and of what was put a job is done exactly when fewer empty jobs than threads were put before it |
| ThreadPool.ShutdownEnds | tinfra/thread_runner.h:61-90 | no run of the pool's own steps during shutdown is longer than a bound known at its start |
| ThreadPool.ShutdownCompletes | tinfra/thread_runner.h:61-90 | a shutdown that goes on for as long as it can ends with the join over |
| ThreadPool.CanFinish | tinfra/thread_runner.h:61-67 | from any point of a shutdown there is a run of the pool's own steps to the end of the join |
| ThreadPool.JobsGetDone | tinfra/thread_runner.h:53-90 | for any number of threads but zero and any number of jobs there is a run that starts the pool, takes the jobs, shuts down, and has done them all |
| Pipe.InternalPipe.ReadTurn | tinfra/internal_pipe.cpp:35-53 | the front of the buffer up to the size, the end if closed and empty, or sleep |
| Pipe.InternalPipe.Write | tinfra/internal_pipe.cpp:55-70 | refused after close; otherwise appends, and wakes all sleepers exactly if the buffer was empty |
| Pipe.InternalPipe.Close | tinfra/internal_pipe.cpp:72-78 | closes, and wakes all sleepers exactly if the buffer is empty |
| Pipe.StepKeeps | tinfra/internal_pipe.cpp:35-78 | every turn of every reader and writer keeps the invariant |
| Pipe.PipeSafety | tinfra/internal_pipe.cpp:35-78 | in any interleaving: a sleeping reader means an open, empty pipe; what was read is a prefix of what was written, and the rest is in the buffer |
| Pipe.EndOfFile | tinfra/internal_pipe.cpp:39-42 | the end is reported only after close with every byte delivered, and from then on to every read |
| Pipe.EmptyReadIsEnd | tinfra/internal_pipe.cpp:39-53 | a read for at least one byte that got none has seen the end |
| Pipe.ClosedReadsFinish | tinfra/internal_pipe.cpp:72-78 | once the pipe is closed every pending read can take its turn, and that finishes it |
| Pipe.PipeHistory | tinfra/internal_pipe.cpp:55-78 | a pipe is closed exactly if close was called, and delivered and buffered bytes together are what was written before that |
| Pipe.ClosedForGood | tinfra/internal_pipe.cpp:35-78 | after close the pipe stays closed and takes nothing more; every pending read can take its turn, which ends it with bytes, or with the end if there are none |
| Pipe.ReadTakesAll | tinfra/internal_pipe.cpp:45-52 | a read takes as much as it asked for, or all there is |
| Pipe.ReadWaits | tinfra/internal_pipe.cpp:39-43 | a read of an open and empty pipe goes to sleep and changes nothing else |
| Pipe.ReadsWereCalled | tinfra/internal_pipe.cpp:35-53 | every read, pending or finished, was called for that size |
| Pipe.CanReadAll | tinfra/internal_pipe.cpp:35-53 | whoever is not reading can read all that is there |
| Pipe.Conversation | tinfra/internal_pipe.cpp:35-78 | a reader that comes first sleeps, gets what is written then, and the end after close |
| Vfs.PutMeaning | tinfra/vfs.cpp:201-222 | placing a tree changes what is seen at and below the place, and nothing else |
| Vfs.RemoveMeaning | tinfra/vfs.cpp:248-264 | removing a tree makes what is at and below the place disappear, and nothing else |
| Vfs.MkDirsMeaning | tinfra/vfs.cpp:162-173 | making directories makes the path and those above it directories, and changes nothing else |
| Vfs.ClearExactly | tinfra/vfs.cpp:162-173 | directories can be made at a path exactly if no file is there or above |
| Vfs.SameTree | tinfra/vfs.cpp:201-264 | file trees in which every path looks the same are the same |
| Vfs.FileSystem.Mkdir | tinfra/posix/posix_fs.cpp:227-242 | makes missing parents first; succeeds exactly if nothing is there and no file is in the way; changes nothing otherwise |
| Vfs.FileSystem.EnsureDirExists | tinfra/vfs.cpp:162-173 | succeeds exactly if no file is in the way, makes exactly the missing directories, and changes nothing otherwise |
| Vfs.FileSystem.ListFiles | tinfra/vfs.cpp:195-199 | the names in a directory, each once, in any order |
| Vfs.FileSystem.RecursiveRm | tinfra/vfs.cpp:248-264 | removes exactly the named subtree, with rmdir on empty directories only; fails without a change if nothing is there, and at the root after emptying it |
| Vfs.TargetStep | tinfra/vfs.cpp:205-207 | a copy to an existing directory goes below it, under the source's name, and again if that is a directory too |
| Vfs.Copy | tinfra/vfs.cpp:224-246 | copies a file exactly if it is there and its target's parent is a directory, and changes nothing else or nothing at all; onto itself it leaves the file empty |
| Vfs.CopyOntoItself | tinfra/vfs.cpp:237-241 | a file copied onto itself is empty afterwards, and nothing else has changed |
| Vfs.RecursiveCopy | tinfra/vfs.cpp:175-222 | for one file system or two, unless a directory goes to a free place inside itself: succeeds exactly if the source is there and the target can be made, makes the target's subtree equal to the source's, and changes nothing else or nothing at all |
| Vfs.CopyIntoItself | tinfra/vfs.cpp:208-218 | a directory copied to a free place inside itself, whatever entries have been copied already: the entry on the way to the target is there, and copying it is the same situation one level down |
| Vfs.OtherEntry | tinfra/vfs.cpp:210-218 | the other entries of such a directory are copied as they should be |
| Vfs.CopyIntoItselfDescends | tinfra/vfs.cpp:201-222 | so such a copy reaches every depth of nested calls, in whatever order the entries are listed |
| Vfs.CopyMeaning | tinfra/vfs.cpp:201-222 | path by path: below the target what is below the source, directories above it, no change anywhere else |
| Vfs.SourceStays | tinfra/vfs.cpp:208-218 | copying a directory elsewhere in its own tree leaves the source as it is at every step |
| Vfs.CopyThenRemove | tests/fs_test.cpp:100-105 | removing a fresh copy restores the file system exactly when the target's parent was there before |
| Vfs.CopyAndRemove | tests/fs_test.cpp:100-105 | copy a tree within a file system, remove the copy: nothing has changed |
| Lister.OpenChild | tinfra/fs.cpp:90-93 | opening the path of a listed directory gives that directory |
| Lister.ListedOnce | tinfra/fs.cpp:88-114 | the walk lists each entry whose directories are all dug into exactly once, and no other path |
| Lister.WalkInOrder | tinfra/fs.cpp:88-114 | an entry is listed before what is inside it, and otherwise as the directories list their entries |
| Lister.RecursiveLister.constructor | tinfra/fs.cpp:71-80 | a new lister has the whole walk ahead |
| Lister.RecursiveLister.FetchNext | tinfra/fs.cpp:88-114 | gives the next path of the walk; what remains is the rest, with the inside of the entry just given if recursion stays on and without it otherwise |
| Lister.RecursiveLister.Recurse | tinfra/fs.cpp:116-119 | turning recursion off drops exactly the inside of the last entry |
| Lister.ListPruned | tests/fs_test.cpp:142-160 | a listing in which recursion is turned off after unwanted entries is the walk without their insides |
| Lister.WalkFrom | tinfra/fs.cpp:149-169 | the recursive visitor makes the same walk |
| XmlBuilder.Builder.FlushOpenedTag | tinfra/xml_builder.cpp:109-127 | a pending element is written with its attributes and pushed |
| XmlBuilder.Builder.Start | tinfra/xml_builder.cpp:27-33 | the pending element is written, the new one begun; written and pending events are what the calls mean |
| XmlBuilder.Builder.Attr | tinfra/xml_builder.cpp:35-40 | an attribute joins the pending element |
| XmlBuilder.Builder.StartElement | tinfra/xml_builder.cpp:53-74 | writes the pending element and the given one |
| XmlBuilder.Builder.EndElement | tinfra/xml_builder.cpp:76-92 | ends the innermost element by name, without looking at a pending one; what is written and pending is still what the calls mean exactly if none was pending |
| XmlBuilder.Builder.End | tinfra/xml_builder.cpp:42-51 | writes the pending element and ends the innermost |
| XmlBuilder.Builder.CData | tinfra/xml_builder.cpp:94-107 | writes the pending element and the character data |
| XmlBuilder.Build | tinfra/xml_builder.cpp:27-127 | any legal calls leave written and pending events that together are what the calls mean |
| XmlBuilder.MeaningNested | tinfra/xml_builder.cpp:42-92 | legal calls mean well-nested events |
| XmlBuilder.CloseExactly | tinfra/xml_builder.cpp:17-24 | when close's assertion holds, the document is complete exactly if no element is pending |
| XmlBuilder.ClosedWhilePending | tinfra/xml_builder.cpp:17-33 | a new builder passes that assertion right after its first start, with an element open and nothing written |
| XmlBuilder.EndElementDropsPending | tinfra/xml_builder.cpp:76-92 | ending by name in any state with a pending element loses that element and gives its attributes to the next |
| XmlWriter.ContentEncoder.Next | tinfra/xml_writer.cpp:52-73 | a chunk and what is left after it are the encoding of what was left before |
| XmlWriter.WriteEncoded | tinfra/xml_writer.cpp:217-246 | the chunks together are the encoded text |
| XmlWriter.XmlStreamer.EnsureTagStartClosed | tinfra/xml_writer.cpp:184-197 | writes the declaration once and finishes an open start tag, which then counts as nesting |
| XmlWriter.XmlStreamer.StartTag | tinfra/xml_writer.cpp:123-144 | writes name and escaped attributes and leaves the tag unfinished; the counter stays in step with the open elements |
| XmlWriter.XmlStreamer.CharData | tinfra/xml_writer.cpp:146-167 | writes escaped text inside the innermost element |
| XmlWriter.XmlStreamer.EndTag | tinfra/xml_writer.cpp:169-182 | finishes an empty element or writes its end tag; the counter does not underflow |
| XmlWriter.XmlStreamer.Write | tinfra/xml_writer.cpp:93-108 | any event that keeps the nesting keeps the counter equal to the open elements, less an unfinished one |
| XmlWriter.WriteDocument | tinfra/xml_writer.cpp:76-257 | the text of a well-nested event sequence, event by event |
| XmlLayout.LaidOut | tinfra/xml_writer.cpp:123-222 | for human readers each tag stands on a line of its own, indented by its depth, and an empty element is one line |
| XmlLayout.DocumentLaidOut | tinfra/xml_writer.cpp:116-222 | the whole document for human readers: the declaration if asked for, and these lines |
| XmlLayout.TextAsIs | tinfra/xml_writer.cpp:235-246 | text is written as it is exactly if it holds neither `<` nor `&` |
| XmlLayout.ValueAsIs | tinfra/xml_writer.cpp:217-228 | a value is written as it is exactly if it holds none of these and neither quote |
| XmlRoundTrip.DecodeEncoded | tinfra/xml_writer.cpp:217-246 | decoding undoes the escaping of attribute values and of text, whatever follows |
| XmlRoundTrip.EncodedFree | tinfra/xml_writer.cpp:217-246 | escaped text holds no `<`, and an escaped value no quote either |
| XmlRoundTrip.ForbiddenKept | tinfra/xml_writer.cpp:235-246 | escaped text holds `]]>` or a control character exactly if the text does |
| XmlRoundTrip.BodyBack | tinfra/xml_writer.cpp:123-197 | from any point of a document, the compact text reads as the events left, or cannot be read if they hold characters or attributes XML forbids |
| XmlRoundTrip.DocumentReadsBack | tinfra/xml_writer.cpp:93-197 | well-nested events with proper names, written compactly, read as a document: adjacent text joined, empty text dropped, white space normalised, and dropped around the root; they cannot be read exactly if they hold a control character, `]]>` in joined text, an attribute twice, or not one root with white space around it |
| XmlRoundTrip.DocumentBackExactly | tinfra/xml_writer.cpp:217-246 | any events whatever come back unchanged, but for the pieces of text, exactly if they are one properly nested element with proper names, with none of the above, no carriage return in text, and no tab or line end in a value |
| XmlRoundTrip.SectionEndRefused | tinfra/xml_writer.cpp:235-246 | an element with the text `]]>` is written as what is not XML |
| XmlRoundTrip.RepeatedNameRefused | tinfra/xml_writer.cpp:123-144 | an element with one attribute twice is written and does not come back |
| XmlRoundTrip.TwoRootsRefused | tinfra/xml_writer.cpp:169-182 | neither do two elements, one after the other |
| XmlRoundTrip.MergedNests | tinfra/xml_writer.cpp:146-167 | joining and dropping text keeps the nesting |
| XmlRoundTrip.BuildAndWrite | tinfra/xml_builder.cpp:27-127 | what legal builder calls mean comes back, written and read, exactly if it is such a document; also if an element was left open or pending |
| SharedPtr.Attach | tinfra/shared_ptr.h:267-272 | attaching a handle that holds nothing keeps every counter equal to the number of its handles |
| SharedPtr.Detach | tinfra/shared_ptr.h:274-286 | detaching does too, and the counter goes with its last handle |
| SharedPtr.Memory.ConstructCopy | tinfra/shared_ptr.h:197-204 | a copy shares what the original holds |
| SharedPtr.Memory.ConstructNew | tinfra/shared_ptr.h:188-195 | a new object gets a counter of one; its members are handles of no other object and may hold shares already |
| SharedPtr.Memory.ConstructNull | tinfra/shared_ptr.h:188-195 | a null pointer gets a counter of one, too |
| SharedPtr.Memory.Swap | tinfra/shared_ptr.h:136-142 | two handles trade their contents and every counter stays right |
| SharedPtr.Memory.Release | tinfra/shared_ptr.h:157-164 | gives up the share; exactly the objects go that are left without a share, one after the other, each logged once after whoever held it, and of two members with the only shares the later one's object first; all other handles are as before; the pointer is cleared exactly if the share was the last, in freed memory exactly if the handle is a member of an object that goes; a handle that still points points to a live object |
| SharedPtr.Memory.DestroyMembers | tinfra/shared_ptr.h:133-135 | the members of a deleted object are destroyed, the last one first, and exactly what they alone kept alive, directly or in turn |
| SharedPtr.Memory.Destroy | tinfra/shared_ptr.h:133-135 | a handle outside all objects goes, and exactly the objects its share alone kept alive, directly or in turn |
| SharedPtr.Memory.Assign | tinfra/shared_ptr.h:224-248 | the handle takes over the other's share before its old one is given up; exactly the objects go that nothing holds then, directly or in turn; the old one stays exactly if shared or taken over |
| SharedPtr.Memory.Advance | tinfra/shared_ptr.h:234-243 | `p = p->next` reads the next handle while it is there, even if it is destroyed by the assignment, and wherever p itself is |
| SharedPtr.AliveExactly | tinfra/shared_ptr.h:157-164 | an object is alive exactly as long as a handle is attached for it |
| SharedPtr.GoneExactly | tinfra/shared_ptr.h:133-164 | if every object left is held and every deletion has its reason, the objects that went are exactly those left without a share |
| SharedPtr.ResetInRing | tinfra/shared_ptr.h:148-164 | reset of the last handle in a ring of any length that it alone keeps alive writes to the freed handle |
| BufferedStream.BufferedInputStream.ReadTarget | tinfra/buffered_stream.cpp:99-102 | the target is only read before it has reported its end |
| BufferedStream.BufferedInputStream.ConsumeBuffer | tinfra/buffered_stream.cpp:74-82 | hands out the front of the buffer, up to the size |
| BufferedStream.BufferedInputStream.FillBuffer | tinfra/buffered_stream.cpp:84-106 | buffered and unread bytes together stay the same; false only at the end |
| BufferedStream.BufferedInputStream.Read | tinfra/buffered_stream.cpp:20-59 | delivers the next bytes of buffer and target in order, and none only at the end; the rest stays ahead |
| BufferedStream.BufferedInputStream.Close | tinfra/buffered_stream.cpp:61-65 | nothing is delivered after close |
| BufferedStream.WriteAll | tinfra/stream.cpp:69-86 | writes all of the data, or a beginning of it if a write takes nothing |
| BufferedStream.ReadAll | tinfra/stream.cpp:53-67 | reads everything ahead |
| BufferedStream.StreamCopy | tinfra/stream.cpp:88-97 | delivers exactly the source's bytes in order, or a proper beginning of them if a write fails; a sink that always takes something never fails |
| IntToString.NumeralValue | tinfra/basic_int_to_string.h:72-100 | the text of a number is canonical and has its value |
| IntToString.OnlyNumeral | tinfra/basic_int_to_string.h:72-100 | a canonical numeral is the text of its value: there is only one |
| IntToString.SignedNumeralValue | tinfra/basic_int_to_string.h:102-136 | the text of a signed number, with its minus sign, has its value |
| IntToString.UnsignedToString | tinfra/basic_int_to_string.h:72-100 | exact if digits and NUL fit, -1 exactly if not, and never outside the buffer |
| IntToString.WriteSignedDigits | tinfra/basic_int_to_string.h:121-132 | the loop with truncating division leaves the digits of the absolute value reversed, without leaving the type even from its smallest value |
| IntToString.SignedToString | tinfra/basic_int_to_string.h:102-136 | exact for every value with room for digits and NUL, -1 exactly without; the cell after the buffer is written exactly for negative values without room for the sign |
| IntToString.CallersHaveRoom | tinfra/safe_debug_print.cpp:18-110 | the 16, 24 and 48 byte buffers of the callers always have room for sign, digits and NUL |
| Options.FindByNameFirst | tinfra/option.cpp:222-234 | the first option with the name, or none |
| Options.FindByShortcutFirst | tinfra/option.cpp:236-246 | the first option with the letter, or none |
| Options.LongForm | tinfra/option.cpp:132-152 | `--name` and `--name=value` are read as the option of that name, without and with a value |
| Options.ShortForm | tinfra/option.cpp:153-162 | `-I` and `-Ivalue` are read as the option of that letter, without and with a value |
| Options.EndMarker | tinfra/option.cpp:132-137 | `--` goes and everything after it stays |
| Options.PlainStays | tinfra/option.cpp:122-166 | a parameter without a dash, or a dash alone, stays |
| Options.LongOption | tinfra/option.cpp:139-197 | what `--name` and `--name=value` at the front of a list do: for no option of that name, one without an argument, one with an argument attached, following, or missing |
| Options.ShortOption | tinfra/option.cpp:153-197 | the same for `-I` and `-Ivalue` |
| Options.OptionList.Look | tinfra/option.cpp:122-166 | a parameter is taken apart into plain, end marker, or option with or without a value |
| Options.OptionList.Parse | tinfra/option.cpp:118-198 | the loop erasing from the vector refines a one-pass parser: what is left, what the options see in order, and whether a needed value is missing |
| Options.KeptOrGone | tinfra/option.cpp:109-198 | every parameter is kept or consumed, once, and both in order |
| Options.GoneSaysAll | tinfra/option.cpp:118-198 | the consumed parameters alone say the same to the options, and nothing of them is left over |
| Options.KeptSaysNothing | tinfra/option.cpp:118-198 | of a list that runs through, the kept parameters say nothing to the options |
| Options.ParseAppend | tinfra/option.cpp:132-137 | lists that run through can be parsed piece by piece; after the end marker everything is kept as it is |
| IniFile.Parser.ReadLine | tinfra/inifile.cpp:42-58 | the next line without its end, or nothing at the end of the text |
| IniFile.Parser.FetchNext | tinfra/inifile.cpp:60-111 | the next line by its kind |
| IniFile.Reader.FetchNext | tinfra/inifile.cpp:122-147 | the next entry with the section it is in, past all other lines |
| IniFile.ReadAll | tinfra/inifile.cpp:113-147 | all entries of a text, in order |
| IniRoundTrip.Writer.Write | tinfra/inifile.cpp:156-183 | a section, entry or comment is appended as one line |
| IniRoundTrip.WriteAll | tinfra/inifile.cpp:156-183 | the text of a list of items |
| IniRoundTrip.StripTwice | tinfra/string.cpp:45-56 | stripping a stripped name changes nothing |
| IniRoundTrip.StripSame | tinfra/string.cpp:45-56 | exactly a text without white space at its ends is left alone |
| IniRoundTrip.LineKinds | tinfra/inifile.cpp:60-97 | comments, sections, empty and invalid lines, by their first character |
| IniRoundTrip.AnySpacing | tinfra/inifile.cpp:95-110 | white space around name and value, and more equals signs, make no difference |
| IniRoundTrip.LastLine | tinfra/inifile.cpp:42-58 | the last line need not be ended |
| IniRoundTrip.ValueBack | tinfra/inifile.cpp:97-110 | a written value is read back exactly if it is free of line feeds and of blanks and `=` in front and blanks and line ends behind, or is made of those alone and begins with a carriage return |
| IniRoundTrip.ReadsBack | tinfra/inifile.cpp:60-172 | reading what was written gives the same entries, each in its section |
| IniRoundTrip.ReadFacts | tinfra/inifile.cpp:95-110 | names and values read are free of line feeds, and names of `=` and of blanks around them |
| IniRoundTrip.ReadsBackExactly | tinfra/inifile.cpp:60-172 | among sections and comments that stay on their lines, the entries read are those written exactly if each entry is in order |
| IniRoundTrip.NoMore | tinfra/inifile.cpp:60-111 | no written line is read as more entries than it means |
| IniRoundTrip.EntryReadsBackExactly | tinfra/inifile.cpp:95-166 | an entry comes back exactly if its name is stripped, without `=` and line feed and not begun like a comment or section, and its value is in order |

## Left out

- Doubles are kept as the texts their stream conversion prints, at most six
  significant digits; which number a text stands for is not modelled.
- JSON reading beyond UTF-8: the detected UTF-16 and UTF-32 encodings throw in
  the source and are refusals here. For an empty input the encoding field is not
  initialised in the source; the model takes it as a parameter.
- JSON writer: `begin_array` and `begin_object` inside an array
  write no separator; only nesting through values is covered by the round trip.
- Integers in JSON text: a number too large for 64 bits is clamped, as the
  stream conversion does; the fractional forms it accepts are not modelled.
- vtpath: integer tokens exist in the evaluator but no expression produces them,
  so tokens are names here; node identity is the path from the root.
- VtPathParse.ParseSelector: for an expression that ends in `[*` the source
  looks at the character after its end, which a tstring need not have; the model
  takes it for a NUL.
- Threads: turns under a monitor are atomic steps; the condition variables and
  locks themselves (and the Windows ones, unfinished in the source) are not
  part of this model. Jobs do not throw, and their work is one step.
- Vfs.RecursiveCopy: excludes a directory copied to a free place inside itself,
  which nests calls without end (Vfs.CopyIntoItselfDescends), and the root copied
  into an existing directory: its name is empty, so the source calls itself with
  the same arguments. Paths are lists of names; symbolic links, metadata,
  permissions and failing devices are not part of this model.
- Recursive lister: the tree does not change while it is listed,
  and a directory that cannot be opened does not occur. `walk` also ignores
  errors and can be stopped by its visitor, which is not modelled.
- XML: only compact text is read back; the text for human readers is described
  by its lines (XmlLayout). Texts are sequences of characters: how they are
  encoded in bytes, and which characters above 127 XML allows in names and
  texts, is not modelled.
- XML texts are shorter than the greatest int, as the source
  asserts.
- Shared pointers: conversions between pointer types, boost's pointer and threads
  are not part of this model. Objects
  have identities that are not used again, unlike their memory.
- Output streams: a sink is a growing text; closing and
  syncing are left out. A stream that returns errors does not occur.
- Options: converting values to types, help texts and the registry.
- Tracing, logging, formatting, time, sockets, processes, and the wrappers of
  foreign libraries.
