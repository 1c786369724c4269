# JSON trees, a thread pool and a generator, verified

This project models three parts of a small C server and proves what they are for.

**The JSON library (`cJSON.c`).** The text level defines what the parser, the two
printers and the minifier compute, as functions on NUL-terminated texts, and
proves the laws between them: printing and parsing undo each other, minifying
keeps the meaning, the measured lengths suffice. The memory level has the
library's own form: nodes with sibling and child links, buffers filled by index,
an allocator with a ledger of live blocks. There every method is proved against
the text level, together with what it allocates, frees and leaves unchanged. The
grammar of RFC 8259 is stated on its own, as syntax trees: what is printed is of
that grammar; all of the grammar is read, with the value it stands for unless half
a surrogate pair takes a character along; and the language the parser takes beyond
it is given exactly, with the places of its mistakes.

**The thread pool (`thpool.c`).** The job queue is a class of linked jobs that
refines a sequence. The pool is a transition system of any number of workers, a
pusher, a waiter and a destroyer, whose steps are the stretches between two lock
operations; spurious wake-ups are steps too. The results hold in every state of
every run; one measure shows that every run drains, another that every shutdown
comes to its end. The pool is then given as an object whose methods
update its fields and the linked queue under one lock each; every method is proved
to be the steps it stands for.

**The identifier generator (`uuid4.c`).** Two 64-bit words under xorshift128+,
with an explicit inverse, and the template that renders two outputs.

How the pieces depend on each other, from the bottom up:

| part | modules |
|---|---|
| texts and values | Bytes, Unicode, StringLiteral, Numbers, JsonValues |
| parser and printer as functions | Parser, Progress, Printer, RoundTrip |
| the grammar | Grammar, LaxGrammar, GrammarRead, Layout, PrintedGrammar, AcceptedTexts, RejectedTexts |
| minifier | Minifier, MinifiedParts, MinifyPrinted, MinifyParsed, MinifyAgain |
| nodes and ownership | Memory, CStrings, Nodes, NodeMeaning, Deletion, ChildLists, Readers, Names, Duplication, Building |
| printing and parsing nodes | StringPrinter, TreePrinter, Composer, NodePrinter, StringReader, NumberReader, ParsedTrees, NodeParser, MemoryRoundTrip |
| thread pool | JobQueue, ThreadPool, PoolInvariants, PoolSafety, PoolDrain, PoolShutdown, PoolWaiter, PoolObject |
| generator | Uuid |

Where the code does something other than one would expect, the model follows the
code, shows an input and gives the exact condition:

- A text that is one string without its closing quote is accepted by the parser,
  and `cJSON_Minify` runs over its terminator. `MinifyParsed.MinifyPreservesMeaning`
  shows that among accepted texts this is the only case.
- Minifying twice is not always minifying once: `/ /x` loses its blank and becomes
  a comment. `MinifyAgain.MinifyTwice` has the condition, and
  `MinifyAgain.AcceptedMinifiesOnce` shows that no accepted text is affected.
- `cJSON_AddItemToObject(object, item->string, item)` frees the name and then copies
  it (cJSON.c:902-904). `Building.DropOwnName` shows it, and
  `Building.KeyOutlivesOldName` that no other live name is affected.
- `cJSON_ReplaceItemInObject` does not free the name its new item had before, as
  `cJSON_AddItemToObject` does (cJSON.c:978 and cJSON.c:902-903).
  `Building.ReplacementLeaks` shows that a block is lost if and only if there was
  such a name.
- `/*/` is a whole comment to `cJSON_Minify`, which looks for the end of a comment
  from its first slash on. `MinifiedParts.CommentDropped` shows that this is so exactly
  where the body of a comment starts with a slash.
- An escape for the character zero stands for nothing, since the text ends at a
  zero (`GrammarRead.ZeroIsLost`).
- Half a surrogate pair stands for nothing, and a high half takes the `\u` escape
  behind it along: `\uD83D\u0041` loses its A and `\uD83D\uD83D\uDE00` the pair
  (`GrammarRead.LetterIsLost`, `GrammarRead.PairIsLost`). `LaxGrammar.LeftUnlessLost`
  shows that a string keeps its characters if and only if no high half stands in front
  of an escape that is a character or starts a pair.
- The parser takes more than the grammar, such as `01`, `1e`, control bytes for white
  space and a string left open. `AcceptedTexts.AcceptedExactly` has the whole language.
- `thpool_destroy` does not wait for who is in `thpool_wait`, and may free the pool
  around a sleeping waiter. `PoolWaiter.WaiterLeftAsleep` is such a run.
  `PoolWaiter.WaiterGetsOut` has the condition at the call: the waiter gets out on
  every schedule if and only if there is none, or all that is left for it is to see
  that nobody works, with a thread alive.

Trees in the memory level are ghost values that name the nodes and blocks of a
structure: `Linked` says what a node owns, `View` what a reader finds through
reference nodes, `Separate` that nothing occurs twice.

## Model

| member | source | states |
|---|---|---|
| Bytes.SkipFrom | cJSON.c:411-416 | the loop of `skip` stops at the first byte above the space or at the terminator, which is where the specification of white space puts it |
| Bytes.NamedCharacters | cJSON.c:250-268 | every byte the model names is the character the source writes there, line break, form feed and words included |
| Unicode.ParseHex4 | cJSON.c:176-219 | the value of four hexadecimal digits, and 0 as soon as one of four bytes is none, without reading past that byte |
| Unicode.HexTable | cJSON.c:176-219 | a byte is worth its place in `0123456789ABCDEF` or in `0123456789abcdef`, and is no digit if it is in neither |
| Unicode.SpelledIsRead | cJSON.c:176-219 | four bytes are read as a number exactly when they spell it by those tables, each of them in either case |
| Unicode.MasksAreArithmetic | cJSON.c:302-318 | on every 32-bit word the masks and shifts of the transcoder are the divisions and remainders the model writes |
| Unicode.WriteUtf8 | cJSON.c:288-318 | the falling-through switch, filling from the last byte backwards, leaves exactly the UTF-8 bytes of the code point and nothing before them changed |
| Unicode.Utf8Inverts | cJSON.c:288-318 | UTF-8 of every code point below 0x110000 is well formed (section 3 of RFC 3629) and decodes back to it |
| Unicode.HalvesCombine | cJSON.c:279-286 | the two halves of a code point above the basic plane are a high and a low surrogate and combine to it (section 7 of RFC 8259) |
| StringLiteral.DecodeFits | cJSON.c:236-242 | for every literal that is read, the bytes written never exceed the count of the first pass |
| StringLiteral.EscapeInStep | cJSON.c:236-321 | over one escape both passes move on together, and the escape writes no more than the first pass counted for it |
| StringLiteral.DecodeStopsAtQuote | cJSON.c:244-325 | the second pass ends at the closing quote the first pass found, or at the end of the text when there is none |
| StringLiteral.DecodeIsLocal | cJSON.c:244-325 | what a closed literal decodes to does not depend on what stands behind it |
| StringLiteral.LiteralFitsExactly | cJSON.c:337-350 | the measuring pass plus 3 is exactly the two quotes, the escaped text and the terminator |
| StringLiteral.EscapeByteReadsBack | cJSON.c:355-391 | reading the escape of any byte gives that byte back and goes on behind the escape |
| StringLiteral.LiteralReadsBack | cJSON.c:329-395 | for every NUL-free text: reading the printed literal returns the text and consumes the whole literal, whatever follows |
| StringLiteral.BasicPlaneEscape | cJSON.c:270-318 | every scalar value below 0x10000 but 0, spelled by the tables of digits in any mix of cases, reads as its UTF-8 bytes, which decode back to it |
| StringLiteral.SurrogatePairEscape | cJSON.c:279-318 | every scalar value above, spelled by the tables as a surrogate pair, reads as its UTF-8 bytes, which decode back to it |
| Numbers.NumberProgress | cJSON.c:110-147 | a number consumes at least one byte |
| Numbers.DecimalFits | cJSON.c:156-158 | the decimal form of every 32-bit integer fits the 21 bytes allocated for it |
| Numbers.Int32Range | cJSON.c:153 | the integers printed with `%d` are those from -2147483648 to 2147483647 |
| Numbers.DecimalReadsBack | cJSON.c:110-158 | every integer printed with `%d` reads back as itself, and the pointer stops right behind it |
| Parser.LiteralCompleteness | cJSON.c:244-325 | a literal can be read exactly when the escapes in it are complete |
| Parser.CompleteTextsAreDecided | cJSON.c:419-448 | a text with complete escapes is accepted or rejected at a place; a text accepted to its end has only complete escapes |
| Progress.ParserStaysInText | cJSON.c:419-579 | on every text with complete escapes the recursion ends, success consumes at least a byte, and both the end pointer and the error pointer are suffixes of the text |
| Printer.PrintStarts | cJSON.c:508-538 | a printed value is not empty and starts with a byte that is neither white space nor a closing bracket |
| RoundTrip.ValueReadsBack | cJSON.c:466-834 | at any depth, in either layout and before any delimiter: a printed value reads back as that value and the parser stops exactly at the delimiter |
| RoundTrip.ItemsReadBack | cJSON.c:541-656 | printed array items read back as those items up to the closing bracket |
| RoundTrip.MembersReadBack | cJSON.c:660-833 | printed members, tabs, colons and line breaks included, read back as those members up to the closing brace |
| RoundTrip.PrintedTextReadsBack | cJSON.c:419-463 | parsing the output of either printer to the end of the text gives back the value, for every value of 32-bit integers |
| RoundTrip.PrintIsInjective | cJSON.c:456-463 | different values never print alike, in whichever layouts |
| GrammarRead.NumeralRead | cJSON.c:110-147 | every numeral the parser takes, those of section 6 of RFC 8259 among them, is read to its end, as its sign, its digits by place value and the point moved by its exponent |
| GrammarRead.PiecesRead | cJSON.c:244-325 | every string of section 7, and with any other byte or letter escape in it, is read to its closing quote as what is left of its pieces when a high half takes the escape behind it along |
| LaxGrammar.LeftUnlessLost | cJSON.c:270-318 | what is left is the text of the characters the pieces stand for, pairs combined, if and only if no high half stands in front of an escape that is a character or starts a pair; else it is shorter |
| GrammarRead.LetterIsLost | cJSON.c:279-286 | the string `\uD83D\u0041` is of the grammar and stands for an A behind half a pair; it is read as the empty string |
| GrammarRead.PairIsLost | cJSON.c:279-286 | of half a pair in front of a whole one, `\uD83D\uD83D\uDE00`, nothing is left |
| GrammarRead.ValueRead | cJSON.c:466-505 | every value of sections 3 to 7, and of the wider language the parser takes, is read to its end as the tree its syntax leaves, before any delimiter |
| GrammarRead.GrammarIsAccepted | cJSON.c:419-448 | every JSON text of RFC 8259 is accepted to its end, and with the value the grammar gives it if and only if no string or name in it loses a character |
| LaxGrammar.ReadUnlessLost | cJSON.c:466-505 | the tree read is the one the syntax stands for if and only if no string or name in it, at any depth, loses a character |
| GrammarRead.LaxIsAccepted | cJSON.c:419-448 | so is every text of the wider language: a zero in front of other digits, an exponent or a minus sign without digits, control bytes for white space, any letter behind a backslash |
| AcceptedTexts.AcceptedExactly | cJSON.c:419-448 | a text is accepted to its end if and only if it is of that wider language between white space, or white space and a string left open |
| AcceptedTexts.OpenIsAccepted | cJSON.c:244-325 | a string left open at the end of the text is accepted with what is left of its pieces |
| RejectedTexts.RejectedWhereWrong | cJSON.c:419-448 | for every rejected text: in front of the error pointer stands the beginning of a value of the wider language, up to a place where a value, a name, a colon, a comma or a closing bracket is due, and none of them stands at the pointer; or a whole value, and more than white space follows it |
| RejectedTexts.FrontCanGoOn | cJSON.c:419-448 | what is in front of the error pointer can be completed to an accepted text |
| GrammarRead.ZeroIsLost | cJSON.c:274-275 | the text of the string with the one character zero is read as the empty string |
| PrintedGrammar.PrintedIsSyntax | cJSON.c:508-834 | whatever is printed, at any depth, is the text of the layout, which is a syntax tree of the grammar for the printed value with each space, tab, line break, escape and digit written out |
| Minifier.CopyLiteral | cJSON.c:1191-1200 | a literal is moved down unchanged, from behind its opening to behind its closing quote |
| Minifier.Step | cJSON.c:1172-1204 | one turn of the loop moves the reading index on, keeps the writing index behind it and the unread bytes unchanged |
| Minifier.MinifyInPlace | cJSON.c:1169-1206 | the buffer ends up holding exactly the minified text, no byte behind the old terminator is touched, and nothing grows |
| MinifiedParts.BlockDropped | cJSON.c:1184-1189 | a block comment ends behind the first star in front of a slash |
| MinifiedParts.BlockOpen | cJSON.c:1184-1189 | and overruns exactly if there is none |
| MinifiedParts.LineDropped | cJSON.c:1182-1183 | a line comment ends in front of the first line break, or with the text |
| MinifiedParts.MinifiedExactly | cJSON.c:1169-1206 | for every text: however it is made of blanks, comments, closed literals and single bytes, what is left are the literals and single bytes in their order; and the minifier overruns exactly where a text is not made of such parts up to its end |
| MinifiedParts.OpenOverruns | cJSON.c:1184-1200 | a literal or a block comment left open makes it overrun |
| MinifiedParts.CommentDropped | cJSON.c:1184-1189 | a comment goes, whatever is in it and behind it, unless its body starts with a slash: then it ends there |
| MinifyPrinted.PrintedMinifiesToCompact | cJSON.c:1169-1206 | minifying either printed layout gives byte for byte the unformatted one, for every value |
| MinifyParsed.ValueMinified | cJSON.c:466-505 | what the parser reads from a value it reads from the minified value, and both end at the same place |
| MinifyParsed.MinifyPreservesMeaning | cJSON.c:1169-1206 | on every text accepted to its end: minifying stays in the buffer if and only if the text is not a string left open, and then the minified text parses to the same tree |
| MinifyParsed.OpenLiteralOverruns | cJSON.c:1191-1200 | a string without its closing quote is accepted by the parser and makes the minifier run over the terminator |
| MinifyAgain.FixedMeansCompact | cJSON.c:1169-1206 | a text is left unchanged if and only if it has no blank and no comment outside closed literals |
| MinifyAgain.FirstKeptLeads | cJSON.c:1172-1204 | what is left of a text starts with the first byte of it behind blanks and comments, found by a scan of its own |
| MinifyAgain.MinifyTwice | cJSON.c:1169-1206 | minifying twice is minifying once if and only if nowhere in the text a slash stands in front of blanks and comments with a slash or star behind them |
| MinifyAgain.SecondMinifyCanRemoveMore | cJSON.c:1182-1190 | an input on which the second pass removes more than the first |
| MinifyAgain.AcceptedMinifiesOnce | cJSON.c:1169-1206 | for every accepted text the second pass changes nothing |
| Nodes.NewItem | cJSON.c:83-89 | a new node with every field zero, entered in the ledger of live blocks |
| Nodes.SegmentJoin | cJSON.c:863-867 | a chain of siblings is linked both ways, null-ended and acyclic exactly when its two parts are, joined at their ends |
| Nodes.OwnerIsReader | cJSON.c:869-879 | without reference nodes, what a node owns is what a reader finds below it |
| Deletion.Delete | cJSON.c:92-107 | exactly the nodes and strings the chain owns are freed, each of them once, children of reference nodes not; freeing asks for a live block and leaves its contents arbitrary, so that nothing freed is used |
| Deletion.FreeNode | cJSON.c:95-106 | one node with its strings and, unless it is a reference, its children; nothing of it is used after it was freed |
| ChildLists.SuffixObject | cJSON.c:863-867 | linking behind the last sibling makes the chain the old one with the new item appended |
| ChildLists.AddItemToArray | cJSON.c:882-897 | the children become `kids + [x]`, linked both ways; a null item changes nothing |
| ChildLists.DetachItemFromArray | cJSON.c:916-931 | child `k` comes back whole and unlinked, the others become the sequence without it; off the end, null and no change; of the array itself only the child link may change |
| ChildLists.ReplaceItemInArray | cJSON.c:952-969 | child `k` makes way for the new item, is deleted with all it owns and nothing else is; off the end nothing happens; of the array itself only the child link may change |
| Names.StrCaseCmp | cJSON.c:42-52 | on live blocks: zero exactly when both names are null, or have one length and at each place equal bytes or the same letter of `A` to `Z` and `a` to `z` |
| Names.FirstMatch | cJSON.c:852-860 | the first position whose name answers to the key: no earlier one does |
| Names.CaseIsNoMatter | cJSON.c:852-860 | a name finds the same member as any other spelling of it in other cases |
| Names.FoundInCapitals | cJSON.c:852-860 | so a member is found under its own name in capitals |
| Names.GetObjectItem | cJSON.c:852-860 | the first member that answers to the name, or null, in an object or a reference to one; it reads only blocks that are live |
| Names.DetachItemFromObject | cJSON.c:936-945 | takes out exactly the member lookup returns, and changes only the child link of the object itself |
| CStrings.StrDup | cJSON.c:57-67 | from a live block: a new block of just the length needed holding the same text |
| Building.CreateReference | cJSON.c:869-879 | a node with the fields of the item but its name, that reads as the item but owns nothing below it |
| Readers.AppendSeen | cJSON.c:882-897 | after an append a reader still finds all it found before, through reference nodes too, and the new item behind it |
| Building.AddItemReferenceToArray | cJSON.c:907-910 | appends a reference, also to an item that is in the list already: the list comes to own one node more, and a reader of it finds the value of the item behind the values that were there |
| Building.AddItemReferenceToObject | cJSON.c:911-914 | appends a named reference, also to an item that is in the object already: the object comes to own the node and a copy of the name, and a reader of it finds the value of the item under that name behind the members that were there |
| Building.KeyOutlivesOldName | cJSON.c:902-904 | a name that was live can still be read after the item gave up its own name if and only if it is not that name |
| Building.DropOwnName | cJSON.c:902-903 | with the item's own name as the new one, the name is no longer live when it is about to be copied |
| Building.Rename | cJSON.c:902-904 | under that condition the item gets a new block with the text of the name, its old name is freed and nothing else is |
| Building.AddItemToObject | cJSON.c:898-906 | for a name that is not the item's own: the item gets a copy of it, its old name is freed, and it is appended; a null item changes nothing |
| Building.ReplaceItemInObject | cJSON.c:970-981 | the member lookup finds is replaced and freed, the new item gets a copy of the name; what is live afterwards, exactly; no match changes nothing |
| Building.ReplacementLeaks | cJSON.c:970-981 | what is live afterwards is what the list then owns, with the rest as before, if and only if the new item came without a name |
| Building.LeakedName | cJSON.c:978 | with a name it had before: that block is still live, and belongs to nothing |
| Building.CreateIntArray | cJSON.c:1049-1063 | one number node for each number of the source sequence, in order and with both of its fields; the array stands for that sequence and is all that is allocated |
| Duplication.Duplicate | cJSON.c:1111-1167 | a structurally equal tree without reference flags and sibling links, made of new blocks only, the original unchanged; null for null |
| Duplication.CopyOwnsItsParts | cJSON.c:1111-1167 | a copy has no reference nodes, whatever the original had |
| Duplication.CopyMeansTheSame | cJSON.c:1111-1167 | a deep copy stands for the same value |
| Duplication.DuplicateAndDelete | cJSON.c:92-107 | deleting a deep copy frees exactly what making it allocated and leaves the original as it was |
| StringPrinter.MeasureEscaped | cJSON.c:337-346 | the measuring loop counts the bytes the writing loop will write |
| StringPrinter.PrintLiteral | cJSON.c:329-395 | the writing loop fills the measured buffer to its last byte with the escaped literal |
| StringPrinter.PrintInt | cJSON.c:150-159 | the decimal text in a block of 21 bytes |
| TreePrinter.ArrayBufferSuffices | cJSON.c:587-656 | the length `print_array` computes covers the text and its terminator; with how many bytes to spare, exactly |
| TreePrinter.ObjectBufferSuffices | cJSON.c:732-833 | so does that of `print_object`, at every depth and in either layout, with exactly five bytes to spare where there are members |
| TreePrinter.PrintsItsMeaning | cJSON.c:508-834 | what a tree prints as is the text of the value it stands for |
| Composer.ComposeArray | cJSON.c:636-656 | the compose loop writes the joined entries within the buffer and frees each entry once |
| Composer.PutMembers | cJSON.c:799-833 | the compose loop writes tabs, names, colons, entries and separators within the buffer and frees each part once |
| NodePrinter.PrintArray | cJSON.c:582-657 | renders the array text; one new block stays allocated |
| NodePrinter.PrintObject | cJSON.c:721-834 | renders the object text; one new block stays allocated |
| NodePrinter.PrintValue | cJSON.c:508-538 | renders the text of any tree whose numbers go through `%d`; one new block stays allocated |
| NodePrinter.RenderFormatted | cJSON.c:456-459 | the formatted text of the value the tree stands for, or null for null; PrintedGrammar.PrintedIsSyntax says what that text is |
| NodePrinter.RenderUnformatted | cJSON.c:460-463 | the unformatted text of the value the tree stands for, or null for null |
| StringReader.MeasureLiteral | cJSON.c:236-238 | the first pass, stepping over escaped bytes in pairs, stays inside the text |
| StringReader.ReadUnicode | cJSON.c:270-318 | one `\u` escape or surrogate pair: its UTF-8 bytes out, the pointer one short of behind it |
| StringReader.ReadLiteral | cJSON.c:236-325 | both passes: a block sized by the first holds the decoded text, and the pointer ends where decoding does |
| NumberReader.ReadNumber | cJSON.c:110-141 | the loops of `parse_number` compute the value of the numeral and stop behind it |
| NumberReader.TruncatesTowardsZero | cJSON.c:144 | the `int` of a number is the one integer next to it on the side of zero |
| ParsedTrees.ParsedIsReadyToPrint | cJSON.c:466-505 | a parsed tree of 32-bit integers meets what printing asks for |
| NodeParser.ParseStringInto | cJSON.c:223-326 | fills the string of the node, or sets the error pointer and leaves the node |
| NodeParser.ParseItemsInto | cJSON.c:555-578 | the children built stand for the items; on failure they are still a linked tree, and the error pointer is where the grammar fails |
| NodeParser.ParseMembersInto | cJSON.c:674-717 | the same for members, whose names come through `parse_string` |
| NodeParser.ParseValueInto | cJSON.c:466-505 | the node comes to stand for the value, with the fields of its kind set and no others, and the pointer is behind it; or null, the error pointer set and the partial tree still linked; exactly its blocks are allocated |
| NodeParser.ParsePrefix | cJSON.c:419-432 | parsing without a check of the rest; a rejected text leaves no block allocated |
| NodeParser.ParseWithOpts | cJSON.c:419-448 | a tree that stands for the value, in which each node has the fields of its kind set (`valueint` 1 for `true`), no others, and a name only below an object; or null with the place of the mistake and every block freed; the error pointer is null exactly on success (contract at cJSON.h:82) |
| MemoryRoundTrip.PrintAndParse | cJSON.c:419-463 | every tree, printed in either layout and parsed again, comes back as a new tree that stands for the same value, with nothing else left allocated |
| MemoryRoundTrip.PrintEither | cJSON.c:456-463 | what either entry point renders is the text of the layout of the value the tree stands for |
| MemoryRoundTrip.ParseJsonText | cJSON.c:419-448 | a buffer with any JSON text of the grammar gives a new tree, with only its blocks allocated; it stands for the value of the text if and only if no string or name loses a character |
| MemoryRoundTrip.PrintAndMinify | cJSON.c:1169-1206 | minifying the formatted buffer in place leaves the unformatted text |
| JobQueue.Queue.constructor | thpool.c:407-423 | an empty queue with its semaphore at 0 |
| JobQueue.Queue.Push | thpool.c:442-464 | the queue becomes `jobs + [newjob]`, the length and both ends follow, and the semaphore is posted |
| JobQueue.Queue.Pull | thpool.c:469-496 | the front job or null; the queue loses its front; posted again exactly when more than one job was there |
| JobQueue.Queue.Clear | thpool.c:426-438 | each queued job is freed once and nothing else, the queue is empty and the semaphore 0 |
| PoolInvariants.InvKept | thpool.c:324-396 | every step of every thread keeps the invariant |
| PoolInvariants.TokenThereKept | thpool.c:442-496 | with the pool alive, a nonempty queue keeps a token: the flag, a post on its way or a worker about to pull |
| PoolInvariants.SleepersWokenKept | thpool.c:527-553 | a raised flag with sleepers keeps a worker that was woken for it |
| PoolInvariants.LawKept | thpool.c:366-388 | each job stays in exactly one place: queued, with one worker, run once or freed once |
| PoolInvariants.WaiterKept | thpool.c:200-208 | until the pool is freed a sleeping waiter keeps something to wait for, and what a returned wait vouched for stays run |
| PoolInvariants.LateKept | thpool.c:358-380 | no step lets a worker start a second job after `keepalive` was cleared |
| PoolSafety.InvAlongRun | thpool.c:324-396 | the invariant holds along every run, for any number of workers and any schedule |
| PoolSafety.NoStrandedJob | thpool.c:442-496 | in every reachable live state with the queue lock free, a nonempty queue has the flag up or a worker between its wait and its pull |
| PoolSafety.TokenSomewhere | thpool.c:442-496 | and whoever has the queue lock: the flag is up, a push is about to post, or a worker is between its wait and the post that follows its pull |
| PoolSafety.NoLostWakeup | thpool.c:527-553 | in every reachable state a raised flag with a sleeper has a worker already woken |
| PoolSafety.OneInQueue | thpool.c:469-496 | the queue lock has one holder at a time |
| PoolSafety.WaiterNeverForgotten | thpool.c:200-208 | in every reachable state with the pool not yet freed, a sleeping waiter has a queued job or a counted worker |
| PoolSafety.WorkingIsExact | thpool.c:366-388 | `num_threads_working` is the number of workers between increment and decrement, and a pulled unfinished job is with one of them |
| PoolSafety.WaitIsSound | thpool.c:200-208 | when the wait returns, every job pushed before it read a zero length has been run, once |
| PoolSafety.SeenAtZeroLength | thpool.c:203 | what the waiter vouches for is what had been pushed when it read the zero length |
| PoolSafety.FirstInFirstOut | thpool.c:469-496 | jobs leave the queue in the order of pushing, one at a time |
| PoolSafety.AtMostOnce | thpool.c:366-388 | no job is run or freed twice, or both, or while queued, and no two workers hold the same one |
| PoolSafety.SurplusWakeupIsHarmless | thpool.c:370-380 | a worker woken for nothing pulls null and changes nothing but itself |
| PoolSafety.OrderlyShutdown | thpool.c:211-251 | at most one late job for each worker; no thread alive means all have ended; after cleanup every pushed job was run once or freed once |
| PoolDrain.ProgressLowersMeasure | thpool.c:324-396 | without pushes, new waits, spurious wake-ups and shutdown steps, every step lowers the measure, whether or not the pool is kept alive |
| PoolDrain.RunsAreBounded | thpool.c:324-396 | so every such run is at most as long as the measure of its first state |
| PoolDrain.StuckMeansDrained | thpool.c:200-208 | a live state without an enabled step has an empty queue, nobody working, every pushed job run once and the waiter returned |
| PoolDrain.EveryRunDrains | thpool.c:324-396 | from every reachable live state with a worker, however scheduled, the run ends and ends drained |
| PoolDrain.CanDrain | thpool.c:324-396 | and a drained state can be reached from each of them |
| PoolShutdown.EndsLowersMeasure | thpool.c:211-251 | once `keepalive` is cleared every step of the threads and of the cleanup, and every post to all that changes the state, lowers a measure |
| PoolShutdown.PostChanges | thpool.c:527-542 | a post to all changes the state if and only if the flag is down or somebody sleeps |
| PoolShutdown.EveryShutdownEnds | thpool.c:211-251 | from every reachable state with `keepalive` cleared, whatever the pusher and the waiter are doing, and however scheduled: a run of such steps is no longer than the measure, and it stops exactly at the end of the shutdown, with every worker gone and every pushed job run once or freed once |
| PoolShutdown.CanShutDown | thpool.c:211-251 | and the end can be reached from each of them |
| PoolWaiter.WaiterGetsOut | thpool.c:200-251 | in every reachable state in which `thpool_destroy` can be called: on every schedule of the shutdown, with no new call of `thpool_wait`, the waiter is out when the pool is freed, if and only if at the call nobody waits, or the waiter has read a length of zero and nobody works, with a thread alive |
| PoolWaiter.WaiterAtTheEnd | thpool.c:200-208 | once the last thread is gone, some continuation lets the waiter return if and only if the queue is empty or its length was read as zero already |
| PoolWaiter.AbandonedForGood | thpool.c:200-208 | else no step of any run brings the waiter back |
| PoolWaiter.WaiterLeftAsleep | thpool.c:211-251 | a run of a pool with one worker that ends with the pool freed, a job dropped and the waiter asleep |
| PoolObject.Pool.constructor | thpool.c:116-175 | a pool of `n` live threads with an empty queue is an initial state |
| PoolObject.Pool.TestKeepalive | thpool.c:358-363 | both tests of the flag, as steps of the transition system |
| PoolObject.Pool.TryWait | thpool.c:545-553 | one look at the semaphore takes the token or puts the worker to sleep: exactly the step, with the invariant kept |
| PoolObject.Pool.CountIn | thpool.c:366-368 | the increment is the counting step, with the invariant kept |
| PoolObject.Pool.PullJob | thpool.c:469-496 | pulling from the linked queue under its lock is the taking step followed by the releasing one, and the job handed out is the one the transition system says |
| PoolObject.Pool.CountOut | thpool.c:382-388 | the decrement, with its signal at zero, is the uncounting step; a sleeping waiter is signalled then |
| PoolObject.Pool.Leave | thpool.c:391-393 | the decrement of the alive count is the last step of a worker |
| PoolObject.Pool.AddWork | thpool.c:178-197 | pushing on the linked queue under its lock is the enqueuing step followed by the posting one |
| PoolObject.Pool.LookAtLength | thpool.c:203 | the first read of the wait, with what it decides |
| PoolObject.Pool.LookAtWorking | thpool.c:203 | the second read; when it lets the wait return, every job vouched for has been run once |
| PoolObject.Pool.BeginDestroy | thpool.c:220 | clearing `keepalive` is the first step of the shutdown |
| PoolObject.Pool.Poll | thpool.c:227-239 | a turn of the polling loops posts to all while threads are alive, and ends them when none is, whoever is in the wait |
| PoolObject.Pool.ClearQueue | thpool.c:426-438 | clearing the linked queue ends the shutdown: the queue is empty, every worker is gone, and every job ever pushed was run once or freed once |
| Uuid.BackUndoesStep | uuid4.c:20-29 | the explicit inverse undoes the generator step on every 128-bit state |
| Uuid.StepUndoesBack | uuid4.c:20-29 | and the step undoes the inverse, so the step is a bijection |
| Uuid.RewindRecovers | uuid4.c:81-82 | every earlier state can be computed from a later one, any number of steps back |
| Uuid.ForwardRecovers | uuid4.c:81-82 | every state is reached from one any number of steps before |
| Uuid.ForwardJoins | uuid4.c:81-82 | successive calls continue one run on the same state |
| Uuid.NeverZero | uuid4.c:20-29 | a run of any length reaches the all-zero state if and only if it starts there |
| Uuid.Xorshift128plus | uuid4.c:20-29 | the seed array advances by one step and the sum modulo 2 to the 64 is returned |
| Uuid.SumWraps | uuid4.c:29 | the number given out is the sum of the two words, less 2 to the 64 where it does not fit |
| Uuid.FirstWordStep | uuid4.c:20-29 | each bit of the first word goes to its own place, 23 above, 18 below and 5 above, as far as they are there |
| Uuid.SecondWordStep | uuid4.c:20-29 | each bit of the second word goes to its own place and 5 below, and to the first word |
| Uuid.KnownSteps | uuid4.c:20-29 | the states and the numbers of two steps from a state with bits in every place |
| Uuid.Version4Layout | uuid4.c:71-105 | dashes, version and variant are in their places whatever the numbers are, and every other character spells its nibble |
| Uuid.TakenCounts | uuid4.c:83-105 | a digit is taken for each place of the template but the dashes and the version |
| Uuid.NibbleIsPlace | uuid4.c:69-105 | the digits taken are those of the second number followed by the first, in base 16 and from the last one on |
| Uuid.Render | uuid4.c:83-105 | the loop over the template writes those 36 characters and the terminator |
| Uuid.Generate | uuid4.c:69-105 | two steps of the generator, their outputs rendered low byte first |

## Left out

- Allocation failure and the allocation hooks (cJSON.c:69-80): allocation always succeeds.
- Incomplete string escapes (a trailing backslash, a `\u` short of four plain bytes): the parser functions answer `Incomplete`, and the parsing methods ask that this is not the answer.
- NumberReader.ReadNumber: computes with exact reals in place of `double`, so rounding, infinities and the value of an out-of-range `(int)` cast are not modelled (the cast yields an arbitrary integer).
- NodePrinter.PrintValue: asks that every number takes the `%d` branch; `%.0f`, `%e` and `%f` (cJSON.c:163-171) are not modelled.
- Nodes.NewItem: the `type` word is a kind and a reference bit; kinds beyond `cJSON_Object`, which print as nothing, cannot be represented.
- Composer.ComposeArray: the arrays of entry and name pointers are sequences that are not entered in the ledger of live blocks; the buffers they point at are.
- TreePrinter.ObjectBufferSuffices: lengths, depths and counters do not wrap around at 32 bits.
- Building.AddItemToObject: asks that the name is not the item's own, which the code would free before it reads it.
- Building.Rename: a key is the start of a block; a pointer into the middle of the item's own name, which is freed before it is copied just the same, cannot be represented by an array.
- The float, double and string array builders and `cJSON_CreateBool` and its like (cJSON.c:984-1032, 1064-1108): the same loop as the int builder, or one node.
- `cJSON_DeleteItemFromArray`, `cJSON_DeleteItemFromObject`, `cJSON_GetArraySize`, `cJSON_GetArrayItem`: each is a composition or a walk that is modelled elsewhere.
- Item arguments of the list operations are taken to be unlinked, and trees to share no block; what the C code does to aliased or cyclic structures is not modelled.
- PoolSafety.WaitIsSound: one waiter; `pthread_cond_signal` on `threads_all_idle` would wake only one of several.
- PoolShutdown.EveryShutdownEnds: leaves out the steps that change nothing (a post to all with the flag up and nobody asleep, of which the polling loop can make any number), spurious wake-ups and new calls; both polling loops are one, without the timer.
- ThreadPool.PoolThere: once the queue is being freed nobody else uses the pool, and who is still in the wait stays there; what such a thread would do with freed memory is not modelled.
- ThreadPool.AfterWake: a signal wakes exactly one sleeper; further wake-ups are spurious ones, which the safety results allow and the results on draining and shutdown exclude.
- PoolObject.Pool.PullJob: runs its two steps without another thread in between; what others can do there, outside the queue lock, is in the transition system.
- PoolObject.Pool.JobDone: the memory of a job that has been run is not tracked; that of the jobs cleared from the queue is, in JobQueue.Queue.Clear.
- Thread creation and its failures, thread names, pausing and resuming by signal, several pools sharing the static flags, and release of the locks at shutdown.
- Seeding of the generator from the operating system (uuid4.c:31-67) and big-endian machines.
- sserver.c, log.c and main.c: sockets, packets, logging and option parsing.
