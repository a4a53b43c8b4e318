# belt.pp: verified models of its parser, JSON codec, queue and tables, thread pool and peer channel

`dafny verify dfyconfig.toml` checks everything. The project models the parts of belt.pp whose
correctness depends on facts that the code keeps only indirectly:

* **The incremental operator-precedence parser** (`ExpressionForest`, `Placement`, `ExpressionArena`,
  `ExpressionTree`, `TreeDepth`, `OperatorTable`, `TokenRuns`, `Reference`, `BareTrees`, `Precedence`, `ParserCorrect`,
  `MathTable`). `ExpressionTree.Tree` is the object with its arena, its address stack and its text, edited in
  place; its ghost field is the ordered forest that the arena lays out. Every edit is proved equal to an edit of
  the forest (`Placement.Place`), and what runs of tokens build is proved about `Place`: arity, priority order,
  scope balance, and equality with an independent recursive definition (`Reference`) that splits a chain of
  operands at its weakest operator.
* **JSON over that parser** (`JsonLexers`, `NumberGrammar`, `JsonStream`, `JsonReader`, `JsonText`, `JsonFull`,
  `JsonReference`, `JsonLayout`, `JsonDocument`): the character-level lexers, numbers against a grammar of their own, the
  reader with its limits and exactly what the limits change, the theorem that cutting the input into pieces changes
  nothing, what `parse_full` makes of a text that ends in a number, and the reference tree of every text that spells a
  well-formed expression. `JsonDocument` states the result in JSON's own terms: a document written in any layout is
  parsed into a tree with exactly its arrays, objects, members and leaves.
* **The JSON string codec** (`Utf`, `JsonString`, `JsonDecode`, `JsonUtf8`, `StringGrammar`): the stateful decoder against
  a recursive reference, the round trip, well-formedness of the UTF-8 it writes, and all of it against a grammar of
  literals and a meaning of their parts that share no table with lexer and decoder.
* **The ring queue with permanent indices, and the tables built on it** (`Modular`, `AbsoluteQueue`, `SegmentList`,
  `SegmentQueue`, `EventTable`, `ChannelTable`), with 64-bit wrap-around written out as remainders modulo 2^64.
* **Two concurrent protocols** (`ThreadPool`, `DirectStream`) and **the dependency-ordering loop** of the generator
  (`ClassOrder`).

Some statements that one might expect are false of the code. For these the project gives the exact condition:

* Limits are checked after a token has changed the tree, so a token that breaks one stays in the tree. `parse_stream`
  succeeds exactly when it would without limits, all tokens fit, and the undecided tail is within the pending limit.
  Tree and text are those of the run without limits exactly when all tokens fit; otherwise less text is consumed
  (`LimitsExactly`). The text "[[" where one address is allowed leaves two nodes and the text "[" (`RefusedStays`). Cut
  into two calls, `parse_stream` succeeds exactly when the one call on the whole text does and the text undecided at
  the cut is within the pending limit (`ChunkIndependence`).
* A number is taken only when a character behind it shows where it ends, so `parse_full` fails on a text that ends in a
  number. Given room for one more character, it accepts a text exactly when it accepts the text with a blank behind it
  and the text does not end in a number (`BlankBehind`); "1" and "1 " differ (`OneDigit`).
* An event id reaches a channel through its slot even when the slot is closed but not recycled. If a channel comes
  out, it is the slot's owner exactly when the slot is open (`Network.Dispatch`). Slots that name somebody else's
  channel exist only after an `add_channel` that failed after taking its slot; `FailedAddLeavesStaleSlot` makes the
  calls and dispatches such an event.
* The queue's constructor reproduces a requested end index exactly when that index is not 0 or the queue is
  empty; a queue without any capacity reproduces only the end index 0. So a full queue grows with its elements at their
  indices exactly when its end index is not 0 or it is empty; otherwise `reserve` ends the program (`Queue.Reserve`).
  Two pushes onto `queue(2, 2^64 - 2, 0)` lead there, and the third one ends the program (`PushToZero`).
* A caller of `wait` can be missed by the single `notify_one` exactly when there are at least two callers
  (`MissedExactlyWithTwo`). It then sleeps on, whatever the pool does, until a task is submitted or it wakes up
  spuriously (`MissedSleepsOn`).
* A peer id can be used again exactly when it is not listed and every other peer has taken what its predecessor
  left. With a listed id the constructor throws and changes nothing; with an untaken queue it throws with the new id
  already listed and joined with some of its peers (`Channel.Create`). Creating "a" and "b", destroying "a" and
  creating it again is enough (`ReusedTooEarly`).
* `decode` writes well-formed UTF-8 exactly for the literals that are well-formed UTF-8 themselves.

Conventions: bytes are characters below 256; `memory`, `node_address`, `expression_string` and the queues of the
peer channel are sequences held in fields; outcomes of system calls are parameters; exceptions are result values.

## Model

| member | source | states |
|---|---|---|
| ExpressionTree.Tree.Create | src/belt.pp/parser.hpp:298-305 | The first token becomes the root: one node at address 0 and one address on the stack |
| ExpressionTree.Tree.IsComplete | src/belt.pp/parser.hpp:306-320 | The test that looks at the address stack only is true exactly when the tree is non-empty and every node of the arena is complete |
| ExpressionTree.Tree.Item | src/belt.pp/parser.hpp:268-275 | An address on the stack is a valid cell and holds the node at that depth of the rightmost path |
| ExpressionTree.Tree.ScanBack | src/belt.pp/parser.hpp:732-743 | The backward scan ends at the deepest stack node that is unfinished or weaker than the token |
| ExpressionTree.Tree.ScanSame | src/belt.pp/parser.hpp:756-768 | The second scan moves to the nearest unfinished node if that is of the token's kind |
| ExpressionTree.Tree.FixNode | src/belt.pp/parser.hpp:780-796 | The in-place merge is the forest edit Fix; the arena invariant is kept |
| ExpressionTree.Tree.WrapNode | src/belt.pp/parser.hpp:797-814 | The relinking of peer, child and parent is the forest edit Wrap; the arena invariant is kept |
| ExpressionTree.Tree.AppendNode | src/belt.pp/parser.hpp:828-842 | The new last child is the forest edit Append; the arena invariant is kept |
| ExpressionTree.Tree.PlaceAct | src/belt.pp/parser.hpp:732-818 | The operator half finds Target and fixes or wraps it, or leaves every field alone |
| ExpressionTree.Tree.AppendIfRoom | src/belt.pp/parser.hpp:820-845 | The value half appends exactly when the node reached still takes an operand |
| ExpressionTree.Tree.ParseHelper | src/belt.pp/parser.hpp:691-849 | One token: the new tree and stack are Place of the old ones; an operator is refused if and only if the stack is empty or blocks it, a value if and only if no operand can go where it would, and then nothing changes; otherwise the token is at the top of the stack; the arena stays one ordered tree that reaches every cell once, with exact child counts, a stack that is a prefix of the rightmost path, and no incomplete node off it |
| ExpressionTree.Tree.Child | src/belt.pp/parser.hpp:276-291 | Following previous-peer links from the last child reaches the child with the given index |
| ExpressionTree.Tree.Locate | src/belt.pp/parser.hpp:149-152 | The track of child indices leads to the node it names |
| ExpressionTree.Tree.NextChild | src/belt.pp/parser.hpp:154-171 | One turn of the odometer names the next unvisited child, or none |
| ExpressionTree.Tree.Depth | src/belt.pp/parser.hpp:134-190 | The odometer walk ends and returns the recursive height in edges of the subtree at the top of the stack |
| ExpressionArena.FixLayout | src/belt.pp/parser.hpp:786-796 | Changing one cell keeps the memory a layout of the edited forest |
| ExpressionArena.WrapLayout | src/belt.pp/parser.hpp:797-814 | Changing two cells and adding one keeps the memory a layout of the edited forest |
| ExpressionArena.AppendLayout | src/belt.pp/parser.hpp:832-842 | Changing one cell and adding one keeps the memory a layout of the edited forest |
| ExpressionArena.ArenaIsUnique | src/belt.pp/parser.hpp:33-54 | A tree has only one arena: equal trees with equal addresses lie in equal memory |
| ExpressionForest.SpineTestIsExact | src/belt.pp/parser.hpp:306-320 | Completeness of the stack's nodes is completeness of all nodes when nothing off the stack is incomplete |
| Placement.Target | src/belt.pp/parser.hpp:732-768 | The target is on the stack, and everything dropped above it is complete |
| Placement.PlaceKeeps | src/belt.pp/parser.hpp:691-849 | Every placed token drops only complete nodes from the stack, adds at most one node (two with a default operator), and a value token alone adds its slice at the right end of the values |
| Placement.RefusedExactly | src/belt.pp/parser.hpp:732-848 | An operator token is refused if and only if the stack is empty, or its last incomplete node cannot take the token in and is the top of the stack or of the token's kind; a value token if and only if the tree is not empty, the node it would go to takes no operand, and the default operator, if there is one, is refused as well; blanks never |
| Placement.OperatorGoes | src/belt.pp/parser.hpp:732-814 | Where a placed operator goes: into an incomplete node of its own kind or around a complete node, with everything else on the stack below kept and what it covers |
| Placement.PlacedOnTop | src/belt.pp/parser.hpp:772-845 | Behind any accepted operator or value token the top of the stack is that token's node |
| Placement.CompleteIsExact | src/belt.pp/parser.hpp:306-320 | The stack test is exact in every state that keeps the invariant |
| OperatorTable.Table.PlaceOk | src/belt.pp/parser.hpp:732-842 | A placed table token keeps arity and priority order in any table, and counts once for its scope kind |
| TokenRuns.RunOk | src/belt.pp/parser.hpp:732-814 | In every reachable tree of any table the first child of an infix operator is never weaker and later children are strictly stronger, and arities hold |
| TokenRuns.RunCounts | src/belt.pp/parser.hpp:732-814 | In every reachable tree every scope token read is accounted for by exactly one scope node |
| TokenRuns.BalancedWhenComplete | src/belt.pp/parser.hpp:369-397 | In a complete tree the accepted scope tokens of a kind are exactly two for every scope node of that kind |
| TokenRuns.CompleteArities | src/belt.pp/parser.hpp:369-397 | In a complete tree a chained infix operator has at least two children, an unchained one exactly two, a prefix operator one, a scope at most one |
| TokenRuns.CompleteRun | src/belt.pp/parser.hpp:369-397 | The arities of every complete tree that a run of tokens can build, in any table |
| BareTrees.PlaceIgnoresLayout | src/belt.pp/parser.hpp:691-849 | Addresses and text positions never influence where a token goes |
| BareTrees.RunIsFeed | src/belt.pp/parser.hpp:691-849 | Runs over real positions build the same tree as runs without positions |
| Precedence.BuildPath | src/belt.pp/parser.hpp:751-754 | A reference tree has its split operator at the root and rising priorities down its rightmost path |
| Precedence.BuildSnoc | src/belt.pp/parser.hpp:732-814 | Inserting one more operator at the end of a chain is what splitting the longer chain at its weakest operator gives |
| ParserCorrect.FixAgain | src/belt.pp/parser.hpp:772-796 | A chained operator that waits for an operand is not changed by the same operator |
| ParserCorrect.FeedOperand | src/belt.pp/parser.hpp:706-713 | The tokens of any operand, read where an operand is expected, put exactly its reference tree there |
| ParserCorrect.FeedChain | src/belt.pp/parser.hpp:732-842 | The tokens of any chain, read where an operand is expected, put exactly its reference tree there |
| ParserCorrect.ParserBuildsReference | src/belt.pp/parser.hpp:691-849 | For every table and every well-formed expression: all tokens are accepted and the complete tree is the recursive reference tree |
| MathTable.MathTableIsValid | src/belt.pp/math_expression.hpp:32-46 | The arithmetic table meets the conditions of the general theorems, with multiplication as default operator |
| MathTable.MathExpressions | src/belt.pp/math_expression.hpp:49-251 | Arithmetic expressions get their reference trees; any complete tree of arithmetic tokens has its arities and balanced parentheses |
| MathTable.UsualPrecedence | src/belt.pp/math_expression.hpp:49-195 | For any operands and any two of + - * / ^ with a third operand behind: where the second operator binds tighter it joins its operands first, the same operator twice makes one node with three operands, otherwise the first operator comes first; a left-out operator is a multiplication |
| MathTable.RepeatedInfix | src/belt.pp/parser.hpp:772-796 | An infix operator read twice in a row is absorbed if it is chained and refused otherwise, in every state |
| MathTable.StrayClosersMerge | src/belt.pp/parser.hpp:772-796 | Where a closing token finds no scope to close, it is refused or becomes a scope node of its own that leaves the tree incomplete; a second one right behind it completes that node without a new one |
| JsonLexers.ParseString | src/belt.pp/json.hpp:251-305 | The string lexer's loop is LexString: taken up to the closing quote, undecided at the end of the text, or a mismatch |
| JsonLexers.CheckNumber | src/belt.pp/parser.hpp:1223-1310 | The number automaton in stream mode is LexNumber, undecided whenever it reaches the end of the text |
| NumberGrammar.LexNumberMeans | src/belt.pp/parser.hpp:1223-1310 | Against a grammar of signs, digits, one dot, 0x and exponents: undecided exactly while one more digit makes the whole text a number; otherwise the longest prefix that is a number is taken, and a mismatch means that none is |
| NumberGrammar.DigitsAre | src/belt.pp/parser.hpp:1223-1310 | The digits of that grammar: ten decimal ones, and behind 0x six more in small or capital letters |
| JsonLexers.Check | src/belt.pp/parser.hpp:1142-1159 | Taken if the word is a prefix of the text, undecided if the text is a prefix of the word, else a mismatch |
| JsonLexers.ParseBlanks | src/belt.pp/json.hpp:590-605 | Takes the longest run of blanks |
| JsonLexers.InternalRead | src/belt.pp/parser.hpp:1031-1056 | The k-th lexer of the list, with the constants of its own parse and the priority of its place, reads what the operator table says: the lexers agree with the table |
| JsonLexers.StringStable | src/belt.pp/json.hpp:251-305 | A decided string token stays what it is when text is added |
| JsonLexers.NumberStable | src/belt.pp/parser.hpp:1255-1309 | A decided number token stays what it is when text is added |
| JsonLexers.ReadProduces | src/belt.pp/json.hpp:56-176 | Every token read takes at least one character and belongs to the JSON operator table |
| JsonLexers.OneLexerReacts | src/belt.pp/json.hpp:61-605 | The first character decides which single lexer can react |
| JsonLexers.ReadStable | src/belt.pp/parser.hpp:921-1056 | No lexer's success or error changes when text is added, except that a final run of blanks may grow |
| JsonStream.ParseIsStep | src/belt.pp/parser.hpp:599-664 | Under any limits, trying all lexers is one step of the single lexer that reacts, followed by the limit checks |
| JsonStream.LimitsExactly | src/belt.pp/parser.hpp:599-664 | parse_stream succeeds if and only if it would without limits and no limit is hit, and then does the same; tree and text are those of the run without limits if and only if the tokens fit, and otherwise less text is consumed |
| JsonStream.ConsumedExactly | src/belt.pp/parser.hpp:625-649 | A token that finds a place is consumed if and only if the stack, the nodes and the text it gives are within the depth, size and buffer limits; text that is undecided may wait if and only if it is within the pending limit |
| JsonStream.RefusedStays | src/belt.pp/parser.hpp:625-643 | Two nested brackets where one address is allowed: an error, with both nodes in the tree and one bracket consumed |
| JsonStream.PendingChangesNothing | src/belt.pp/parser.hpp:645-649 | The pending limit never changes the tree or the text |
| JsonStream.StepStable | src/belt.pp/parser.hpp:599-664 | A decided step does the same when text is added |
| JsonStream.ChunkIndependence | src/belt.pp/parser.hpp:1078-1113 | While no limit is hit, reading a text in two pieces, the unread tail presented again, gives the same tree, stack, text, unread tail and verdict as reading it whole; under any limits both calls succeed if and only if the one call does and the tail at the cut is within the pending limit |
| JsonReader.ReadersParse | src/belt.pp/parser.hpp:599-687 | The recursion over the lexers, with limits checked after the tree has changed, does to the tree object what ParseFrom says; behind a consumed token address stack, memory and expression_string are within their limits |
| JsonReader.Parse | src/belt.pp/parser.hpp:852-895 | One token from the text, or nothing at its end, with the verdict of ParseFrom; success never leaves the limits |
| JsonReader.ParseStreamInPlace | src/belt.pp/parser.hpp:1078-1113 | The loop leaves tree, text, iterator and verdict as ParseStream says; on success expression_string has grown by the text up to the iterator, and if that moved, stack, memory and expression_string are within their limits; after an error the iterator is at the end |
| JsonReader.InTwoPieces | src/belt.pp/parser.hpp:1078-1113 | Two calls of parse_stream on a tree object against one call on an equal one: while no limit is hit, the same arena, address stack, text, unread text and verdict; under any limits the exact condition for both calls to succeed |
| JsonReader.ParseFull | src/belt.pp/parser.hpp:1115-1140 | True exactly when the text was read without error and every node is complete; true or false, the tree and text are what was read and the stack is cut to the root |
| JsonReader.NothingPending | src/belt.pp/parser.hpp:645-649 | With the pending limit 0, parse_stream reads everything or fails |
| JsonFull.FullAgainstStream | src/belt.pp/parser.hpp:1115-1140 | From the start of any text: against parse_stream with room for all of it, the same tree and text, and success exactly when that succeeds with nothing undecided |
| JsonFull.BlankBehind | src/belt.pp/parser.hpp:1304-1309 | With room for one more character, parse_full accepts a text exactly when it accepts it with a blank behind and the tokens of the text with the blank do not end in a number and that blank |
| JsonFull.OneDigit | src/belt.pp/parser.hpp:1304-1309 | parse_full refuses "1" and accepts "1 " |
| JsonText.TextIsConsumed | src/belt.pp/parser.hpp:633-638 | expression_string grows by exactly the characters consumed, whatever the limits do, and the rest is left to the caller, or nothing after an error |
| JsonText.StreamOk | src/belt.pp/parser.hpp:1078-1113 | Every tree parse_stream builds, under any limits, has the arities and priority order of the JSON table |
| JsonText.TilesMeans | src/belt.pp/parser.hpp:706-713 | The slices of consecutive tokens are disjoint, increasing, and spell their tokens |
| JsonText.ValuesAreSlices | src/belt.pp/parser.hpp:820-840 | As long as the tokens fit, and so in every successful parse_stream and parse_full: left to right, the values of the tree are the value tokens in input order, each with the slice of exactly its text |
| JsonText.StreamIsRun | src/belt.pp/parser.hpp:1078-1113 | The tokens read are JSON table tokens; as long as they fit, parse_stream is their run, whatever the pending limit |
| JsonText.CompleteJson | src/belt.pp/json.hpp:80-176 | Under any limits, in a complete JSON tree a comma has at least two operands, a colon two and a scope at most one; as long as the tokens fit, braces and brackets read are two for every node of theirs |
| JsonReference.JsonTextBuildsReference | src/belt.pp/parser.hpp:1078-1113 | A text whose tokens, blanks aside, spell a well-formed expression is read to its end and gets the complete reference tree of that expression; under limits exactly when the tokens fit |
| JsonLayout.LayoutLexes | src/belt.pp/json.hpp:61-605 | Signs (the six punctuation characters, the three words, string literals and numbers), written with any blanks between them, are read one by one, each as its own token |
| JsonLayout.LexedIsLayout | src/belt.pp/json.hpp:61-605 | A text in which the lexers find only tokens consists of such signs, with only spaces, tabs, carriage returns and line feeds between them |
| JsonDocument.DocumentIsParsed | src/belt.pp/json.hpp:55-176 | A JSON document in any layout (a number with a blank behind it) is read to its end into a complete tree of its shape: bracket nodes over their items, brace nodes over one colon node for each member with exactly its key and value, one comma node above two or more of them, and leaves of the right kind and length; under limits exactly when the tokens fit |
| JsonDocument.OperandShape | src/belt.pp/json.hpp:55-176 | The reference tree of a document has its shape, in every table where the comma is chained and weaker than the colon |
| Utf.PairsAreCodePoints | src/belt.pp/json.hpp:182-199 | Surrogate pairs map into 0x10000-0x10FFFF and can be recovered |
| Utf.CodePointsArePairs | src/belt.pp/json.hpp:182-199 | Every code point in that range is the image of a surrogate pair |
| Utf.Utf32ToUtf8 | src/belt.pp/json.hpp:201-238 | Fills the first bytes of the buffer with the encoding of the code point |
| Utf.Utf8OfIsWellFormed | src/belt.pp/json.hpp:201-238 | Every scalar value is written as one well-formed UTF-8 character that stands for it (section 3 of RFC 3629) |
| JsonString.Encode | src/belt.pp/json.hpp:307-360 | The loop writes Encoded |
| JsonString.DecodeOfEncode | src/belt.pp/json.hpp:307-533 | Decoding an encoded byte string succeeds and returns it, for every byte string |
| JsonString.LexerTakesEncoded | src/belt.pp/json.hpp:251-360 | The lexer takes exactly the encoded string, whatever follows |
| StringGrammar.LiteralIsTaken | src/belt.pp/json.hpp:251-305 | The string lexer takes every literal of the grammar, whatever follows |
| StringGrammar.TakenIsLiteral | src/belt.pp/json.hpp:251-305 | What the string lexer takes is a literal of the grammar: no raw control character, only the eight short escapes, four digits behind u |
| StringGrammar.UndecidedIsPrefix | src/belt.pp/json.hpp:251-305 | Where the string lexer is undecided, the text is a proper beginning of a literal |
| StringGrammar.RefusedIsNoLiteral | src/belt.pp/json.hpp:251-305 | What the string lexer refuses neither begins with a literal nor is the beginning of one |
| StringGrammar.DecodeIsMeaning | src/belt.pp/json.hpp:362-533 | decode gives every literal its meaning part by part: the eight short escapes, code units in digits of any case, surrogate pairs as code points; nothing if a surrogate is alone |
| StringGrammar.DecodableIsLiteral | src/belt.pp/json.hpp:362-533 | decode accepts nothing but literals that have a meaning |
| StringGrammar.ShortEscapes | src/belt.pp/json.hpp:404-416 | The eight short escapes and their values, one by one |
| StringGrammar.EncodedIsLiteral | src/belt.pp/json.hpp:307-360 | encode writes one part for each character: the short escape if there is one, except for the slash, four small digits for the other control characters, the character itself otherwise |
| JsonDecode.Decode | src/belt.pp/json.hpp:362-533 | The stateful loop accepts exactly the literals of the recursive reference and returns their value, or nothing |
| JsonUtf8.DecodeKeepsUtf8 | src/belt.pp/json.hpp:362-533 | The decoded value is well-formed UTF-8 if and only if the literal is |
| JsonUtf8.EncodeKeepsUtf8 | src/belt.pp/json.hpp:307-360 | The encoded string is well-formed UTF-8 if and only if the value is |
| JsonUtf8.DecodableIsOneToken | src/belt.pp/json.hpp:251-533 | Whatever decode accepts is exactly one string token for the lexer |
| AbsoluteQueue.Next2Pow | src/belt.pp/queue.hpp:376-383 | The smallest power of two that is not below the number |
| AbsoluteQueue.Queue.constructor | src/belt.pp/queue.hpp:27-51 | The queue ends at the requested index if and only if that index is not 0 or there are no elements, and without capacity if and only if it is 0; it then begins at end minus size modulo 2^64, otherwise at 0 |
| AbsoluteQueue.Queue.BeginIndex | src/belt.pp/queue.hpp:118-133 | start and loops spell the front's index modulo 2^64 |
| AbsoluteQueue.Queue.EndIndex | src/belt.pp/queue.hpp:118-133 | The end index is the front's index plus the size modulo 2^64 |
| AbsoluteQueue.Queue.ValidIndex | src/belt.pp/queue.hpp:118-133 | True exactly for the indices of the elements, also when they straddle the overflow |
| AbsoluteQueue.Queue.Get | src/belt.pp/queue.hpp:267-275 | The element pushed at that index |
| AbsoluteQueue.Queue.Front | src/belt.pp/queue.hpp:191-207 | The element with the begin index |
| AbsoluteQueue.Queue.Put | src/belt.pp/queue.hpp:257-265 | Assignment changes that element and no other |
| AbsoluteQueue.Queue.Pop | src/belt.pp/queue.hpp:161-174 | The front goes; every other element keeps its index |
| AbsoluteQueue.Queue.GrownSize | src/belt.pp/queue.hpp:213-219 | The new size is at least twice the old one and at least the minimum |
| AbsoluteQueue.Queue.MoveTo | src/belt.pp/queue.hpp:225-228 | The loop over 64-bit indices moves every element to the same index of the new buffer |
| AbsoluteQueue.Queue.Reserve | src/belt.pp/queue.hpp:209-232 | Ends the program exactly when a full queue with elements ends at index 0; otherwise growth keeps elements, indices, begin and end, and a queue that is not full keeps its buffer |
| AbsoluteQueue.Queue.Push | src/belt.pp/queue.hpp:135-146 | The new element stands at the old end index and nothing else moves, or the program ends, exactly as in reserve |
| AbsoluteQueue.PushToZero | src/belt.pp/queue.hpp:209-232 | Concrete calls of push that end the program at the end index 0 |
| SegmentList.ResolvesOnce | src/libsocket/event_impl.hpp:134-140 | An id that some segment holds resolves there and nowhere else |
| SegmentList.RoomMade | src/libsocket/event_impl.hpp:74-98 | Making room moves nothing, issues no id and leaves every segment as it is |
| SegmentList.PushedLookup | src/libsocket/event_impl.hpp:119-120 | A pushed entry is found under the next id; every other id resolves as before |
| SegmentList.RecycledShape | src/libsocket/event_impl.hpp:155-169 | Recycling keeps segments disjoint and increasing, the non-last ones non-empty, and every front open |
| SegmentList.RecycledBuffers | src/libsocket/event_impl.hpp:155-169 | Every segment left is an old one with its old end and the size of its buffer |
| SegmentList.RecycledLookup | src/libsocket/event_impl.hpp:155-169 | Recycling forgets closed entries only |
| SegmentList.Search | src/libsocket/socket.cpp:1294-1303 | The forward search finds the segment of an id |
| SegmentList.SearchBack | src/libsocket/event_impl.hpp:83-86 | The backward search finds the segment of a valid id |
| SegmentList.Recycle | src/libsocket/event_impl.hpp:157-169 | The pop loop and the erase are Recycled |
| SegmentQueue.IndexIsId | src/libsocket/event_impl.hpp:134-140 | valid_index on an id says whether the segment holds it, and operator[] yields its entry |
| SegmentQueue.PopClosed | src/libsocket/event_impl.hpp:155-163 | The pop loop removes the closed entries at the front, moves the base by their number and keeps the buffer |
| SegmentQueue.QueueList.Search | src/libsocket/event_impl.hpp:134-140 | The forward search over queue objects, by valid_index, finds the segment of an id |
| SegmentQueue.QueueList.Add | src/libsocket/event_impl.hpp:74-120 | On the list of queue objects: the new list is WithRoom and Pushed of the old one, no object goes and none gets a new buffer |
| SegmentQueue.QueueList.Write | src/libsocket/event_impl.hpp:112-117 | On the list of queue objects: one entry changes, and every object keeps its buffer |
| SegmentQueue.QueueList.Close | src/libsocket/event_impl.hpp:142-169 | On the list of queue objects: the new list is Recycled of the marked one, and what is left are old objects with their old buffers |
| EventTable.EventHandler.Add | src/libsocket/event_impl.hpp:65-124 | The id handed out is above all earlier ones, it resolves to the new slot, every other id as before, and every segment keeps its place and the size of its buffer; a refused handle takes no id |
| EventTable.AddOnQueues | src/libsocket/event_impl.hpp:65-124 | add on queue objects does what add does to the segments; every old object is still there with its old buffer |
| EventTable.EventHandler.Remove | src/libsocket/event_impl.hpp:126-177 | Throws exactly when the id names no open slot; otherwise closes that slot and forgets closed slots only |
| EventTable.RemoveOnQueues | src/libsocket/event_impl.hpp:126-177 | remove on queue objects does what remove does to the segments; every object left is an old one with its old buffer |
| EventTable.EventHandler.Reuse | src/libsocket/event_impl.hpp:81-117 | Overwrites the slot in place under the same id |
| EventTable.EventHandler.Switch | src/libsocket/socket.cpp:480-492 | remove with keep_slot and add with reuse_slot leave the id valid, open and the same |
| EventTable.ApplyKeeps | src/libsocket/event_impl.hpp:65-177 | Every call keeps the shape of the table, and only a successful add issues an id |
| EventTable.IdsCountAdds | src/libsocket/event_impl.hpp:89-98 | In every life of the table the next id is the number of successful adds, so ids are never repeated |
| EventTable.RecycledForever | src/libsocket/event_impl.hpp:155-169 | A recycled id never becomes valid again, whatever is called later |
| ChannelTable.DistinctSlots | src/libsocket/socket.cpp:1200-1264 | Two open channels never share a slot |
| ChannelTable.Network.AddChannel | src/libsocket/socket.cpp:1163-1272 | On success the next id is an open channel linked with its own new slot; on failure the channels are as before; nobody else changes |
| ChannelTable.Network.DeleteChannel | src/libsocket/socket.cpp:1308-1365 | Closes an open channel and its slot, forgets closed entries only; a closed or unknown id changes nothing |
| ChannelTable.Network.GetChannelSafe | src/libsocket/socket.cpp:1287-1306 | The channel exactly when it is open |
| ChannelTable.Network.SwitchInterest | src/libsocket/socket.cpp:480-492 | The channel keeps its slot through a change of interest |
| ChannelTable.Network.ConnectSuccess | src/libsocket/socket.cpp:478-504 | The channel stops retrying and keeps its slot; nobody else changes; all links are kept |
| ChannelTable.Network.ConnectRefused | src/libsocket/socket.cpp:505-521 | The channel is gone; while attempts are left one new channel is open for each address before the first failure, with one attempt less; every other channel stays; all links are kept |
| ChannelTable.Network.Reopen | src/libsocket/socket.cpp:336-369 | Exactly the ids of the successful opens are added and nothing else changes |
| ChannelTable.StopsAtFailure | src/libsocket/socket.cpp:336-369 | The number of channels opened is n if and only if the first n opens succeed and the next one, if any, does not |
| ChannelTable.Network.Dispatch | src/libsocket/event.cpp:52-70 | A channel that comes out of an event id owns it exactly when the slot is open, and always when no add failed after taking a slot; an open owner always comes out |
| ChannelTable.FailedAddLeavesStaleSlot | src/libsocket/socket.cpp:1205-1212 | From an empty table, by its own calls: after a failed add, an event of a closed slot is dispatched to an open channel whose slot is another one |
| ThreadPool.StepOnce | src/libprocessor/processor.cpp:156-204 | Every step keeps: the queue is the unstarted tasks in order, each started task is finished or run by exactly one worker, m_busy_count counts the running workers |
| ThreadPool.QuietMeansDone | src/libprocessor/processor.cpp:142-144 | With nothing queued and nobody busy, exactly the accepted tasks have finished |
| ThreadPool.StepKeepsAwake | src/libprocessor/processor.cpp:118-132 | Every step keeps: with a task queued and a worker alive, one is awake or a notify is pending |
| ThreadPool.QueueIsServed | src/libprocessor/processor.cpp:162-183 | Then a step towards taking a task is enabled |
| ThreadPool.StepKeepsShutdown | src/libprocessor/processor.cpp:100-107 | Every step keeps: a surplus worker never sleeps once notify_all has been made |
| ThreadPool.StepKeepsWaiter | src/libprocessor/processor.cpp:195-200 | Every step keeps: a single caller of wait sleeps only while its condition is false |
| ThreadPool.PoolIsSafe | src/libprocessor/processor.cpp:76-204 | All of the above in every run from the empty pool |
| ThreadPool.WaiterIsNotified | src/libprocessor/processor.cpp:134-151 | In every run with one caller of wait it does not stay asleep once its condition holds |
| ThreadPool.WaitMeansDone | src/libprocessor/processor.cpp:134-151 | Whenever wait returns, every task accepted so far has finished |
| ThreadPool.ReturnsExactly | src/libprocessor/processor.cpp:134-151 | In every run a call wait(n) returns at a step if and only if nothing is queued or running and at least n tasks were submitted since the last return of any call, counted over the steps |
| ThreadPool.CoreCount | src/libprocessor/processor.cpp:76-107 | When setCoreCount(n) has returned there are n workers, all alive; no run loses a worker that the last call asked for |
| ThreadPool.MissedExactlyWithTwo | src/libprocessor/processor.cpp:195-200 | A run that leaves a caller of wait asleep with its condition true and nobody to notify it exists if and only if there are at least two callers |
| ThreadPool.MissedSleepsOn | src/libprocessor/processor.cpp:134-151 | Such a caller sleeps on through every further run without a submission or its own spurious wake-up |
| ThreadPool.ShutdownDrains | src/libprocessor/processor.cpp:100-107 | When the workers have been joined and submissions came before or from tasks, the queue is empty and every accepted task has finished |
| ThreadPool.Unattended | src/libprocessor/processor.cpp:118-132 | A task submitted when no worker is alive stays queued until a thread is added |
| DirectStream.Channel.Create | src/libdirect_stream/direct_stream.cpp:16-56 | Joins both ways with every peer; throws without a change if the id is listed; throws half way exactly when a peer still keeps a queue for the id, never for a new id |
| DirectStream.ReusedTooEarly | src/libdirect_stream/direct_stream.cpp:16-56 | Concrete calls after which a destroyed id cannot be created again |
| DirectStream.Channel.Destroy | src/libdirect_stream/direct_stream.cpp:57-76 | The peer is erased and drop is put behind everything it gave to each other peer |
| DirectStream.Channel.Send | src/libdirect_stream/direct_stream.cpp:103-116 | Throws for itself and for unlisted peers; otherwise the packet is put behind what the target has from the sender |
| DirectStream.Channel.Receive | src/libdirect_stream/direct_stream.cpp:81-101 | Hands out all that waits from some one peer, in order, and forgets that queue |
| DirectStream.GivenWithoutReuse | src/libdirect_stream/direct_stream.cpp:16-116 | Without reuse of ids a peer is given join, the packets sent to it in order, then drop if the other has gone; nothing by a peer it never met |
| DirectStream.Channel.Delivery | src/libdirect_stream/direct_stream.cpp:16-116 | What a listed peer has taken plus what waits for it is exactly that sequence |
| ClassOrder.CleanUp | src/idl/generator.cpp:257-266 | Exactly the dependencies on known classes are left |
| ClassOrder.EraseAll | src/idl/generator.cpp:286-293 | Exactly the dependencies on other classes are left |
| ClassOrder.WalkCloses | src/idl/generator.cpp:295-297 | If every class left needs another one that is left, there is a cycle among them |
| ClassOrder.OrderHasNoCycle | src/idl/generator.cpp:270-298 | An order with every class behind its dependencies exists only without cycles |
| ClassOrder.Order | src/idl/generator.cpp:257-298 | The loop ends with every known class once, behind the known classes it depends on, or throws, and it throws exactly when the dependencies between known classes have a cycle |

## Left out

- JsonLexers.CheckNumber: nothing is claimed about strtod or the number grammar of RFC 8259; NumberGrammar is the grammar of this lexer.
- AbsoluteQueue.Queue.Reserve: a full buffer of 2^63 cells, whose doubled size would overflow, is excluded, and Push excludes the same case.
- AbsoluteQueue.Queue.constructor: sizes above the rounded capacity, for which the source throws, are excluded.
- ThreadPool.PoolIsSafe: m_policy is always allow_new, as in every use; one setCoreCount runs at a time, because the source does not protect it against itself.
- Widths of T_size_type, T_priority_type and T_property_type: addresses, sizes and priorities are unbounded, so trees of 2^32 nodes and texts of 2^32 characters are not modelled.
- The bit operations of utf32_to_utf8 are written as sums, divisions and remainders, which agree because the fields do not overlap.
- EventTable.EventHandler.Add: its segments are values, for ids without a bound; AddOnQueues and RemoveOnQueues do the same on queue objects, for ids up to 2^62. The lists of channels are values too.
- Failures of the poller and of close inside remove and delete_channel, the streams and socket handles of a channel, and everything else in receive: outcomes of system calls.
- remove with keep_slot is modelled only together with the add that reuses the slot, as all callers use it.
- wake() of the peer channel and the event handlers behind it.
- The output queue of processor_ex; its input protocol is the one modelled.
- math_expression::number, and the retry of unary_operator_plus after binary_operator_plus refuses a token: arithmetic is modelled over tokens.
- json::parse_stream in json.hpp, which calls an older signature of the parser; dump(), discard sets, http.hpp, tls.hpp, logging, timers and packets.
- The rest of the generator, which only writes text.
- async/processor.h, which repeats the thread pool, and async/multithreading.h.
