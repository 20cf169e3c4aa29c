# Models of evalresp's hard parts

This project models, in Dafny 4.11, the parts of the evalresp repository where the
code is furthest from what it means, and proves that it means it.

- **Regular expressions** (`RegexSyntax`, `RegexCode`, `RegexCompiler`, `RegexLinks`,
  `RegexMeaning`, `RegexPaths`, `RegexMatcher`, `RegexExec`, `RegexGrammar`,
  `RegexCanonical`, `RegexTerminator`, `RegexLegs`, `RegexInstances`): the compiler that
  shifts and back-patches byte code while it parses, in its counting and its emitting pass; the
  backtracking machine that runs the code; and the shortcuts of the search. The meaning
  of a pattern is defined on its syntax tree. Which tree that is does not depend on the
  parser: canonical trees are defined by themselves, no two are printed alike, and a
  pattern is accepted exactly if it is the print of one.
- **Argument permutation** (`PermuteArgs`, `OptionString`, `Getopt`, `GetoptItems`): the
  exchange of two blocks in place along gcd-many cycles, and `getopt_internal` as a state
  machine whose whole run sorts the arguments into options and others without changing the
  order in either group, and reports the options with their arguments. What an option
  string lists, and what a vector is meant as, is defined by how they are written.
- **The Mini-XML tree** (`MxmlForest`, `MxmlNode`, `MxmlDelete`, `MxmlSearch`, `MxmlIndex`,
  `MxmlByValue`, `MxmlAttr`): nodes with parent, child and sibling pointers, tied to a forest of child
  sequences; adding, removing, freeing without a stack, walking, searching, and the
  quicksorted index.
- **Writing and loading XML** (`MxmlUtf8`, `MxmlEntity`, `MxmlEntityRows`,
  `MxmlEntityTable`, `MxmlTree`, `MxmlMargin`, `MxmlWrite`, `MxmlLoad`, `MxmlLoader`,
  `MxmlSpelling`, `MxmlReading`, `MxmlSpelled`, `MxmlNormal`, `MxmlRoundTrip`,
  `MxmlDocument`): the stackless writer and the loader. The loader is proved on every
  spelling of a document, by whoever wrote it, and on what it refuses; what the writer
  writes is one of these spellings, so the loader undoes the writer.
- **Channels, phases, filters** (`ChannelTime`, `ChannelFilter`, `PhaseUnwrap`, `FirFold`, `FirAsym`): the in-place
  tournament of `filter_channels`, unwrapping and wrapping of phases, the folding of
  symmetric FIR filters, and the response of filters that are not folded.

`Basics` holds what several of these share.

Where the code changes things step by step, the model is a method over the same state
(program buffer, argument vector, node links, arrays), proved against a function or
relation; the lemmas are about those. Strings are without their terminating NUL, so
"the byte is NUL" reads "the string ends here". Doubles are exact reals.

Seven notes on what the code does and what its documentation says:

- A class that is neither complemented nor repeated also passes a NUL, the terminator
  included (`libsrc/evalresp/regexp.c:898-902`), while a repeated one does not
  (`:1071-1077`). Both readings are modelled (`loose`), the first over the text and
  whatever stands behind its terminator, up to the end of the object it lies in; a run
  that reads further ends with the verdict `Strayed`, since C says nothing of it. The
  theorems about the matcher hold for either reading. What the second reading finds is
  what the first finds inside the text (`AltsSame`); `CanOverrun` is the condition on a
  pattern, read off its tree, for the first to find more or to leave the memory, for
  some text and memory (`OverrunsExactly`), and without it searches agree
  (`SearchSame`). `RegexInstances` has patterns of either kind. What is found behind
  the terminator can be hidden again by the search for the literal that must appear,
  which ends at the terminator (`MustHides`); the verdicts take account of that (`Tells`).
- The closed form of `fir_asym_trans` for equal coefficients leaves the gain out, and at
  zero frequency the coefficients as well (`libsrc/evalresp/calc_fctns.c:379-388`);
  `ClosedFormExactly` says when that does not matter. Such a filter is symmetric, so it
  comes there only if it has not been folded.
- `mxmlAdd` asked to put a node beside itself links the node to itself
  (`libsrc/mxml/mxml-node.c:104-119`); `Add` states that outcome.
- The first character of an attribute name, and of an unquoted attribute value, is stored
  as a single byte (`libsrc/mxml/mxml-file.c:2184`, `:2282`). A name that starts with a
  character beyond ASCII is therefore loaded as another name, and two names of one
  element can collide (`LoadGives`); documents survive exactly if no name starts so
  (`LoadWritten`). Values are always written in quotes.
- Input that ends while only the root is open is a document, without the last text
  (`CutOff`); with a second element open it is an error (`libsrc/mxml/mxml-file.c:2055-2078`).
- The length of an epoch is converted to a 32-bit int (`libsrc/evalresp/input.c:2526`), so
  from about 68 years on a long epoch can count as a short one (`DurationExactly`,
  `LongEpochWraps`).
- `mxmlIndexFind` accepts a value without an element name, but the index is sorted by name
  first. Such a search finds all matches for every value exactly if the values ascend
  along the index or it has just two nodes (`ByValueExactly`, `SecondMissed`).

## Model

| member | source | states |
|---|---|---|
| `RegexExec.Search` | libsrc/evalresp/regexp.c:206-282 | Compiling a pattern and running its byte code on a text in memory: no answer exactly when the pattern is the print of no canonical tree or its program is too big; else the verdict is true of that tree. Where classes do what is documented, it is yes exactly when some stretch of the text matches what the tree means |
| `RegexExec.RegExec` | libsrc/evalresp/regexp.c:737-798 | With all shortcuts in use: failure exactly when the required literal is missing or nothing matches; else a match that starts in the text, none starting further left, or a path that leaves the memory |
| `RegexExec.RegTry` | libsrc/evalresp/regexp.c:803-832 | A try at one position fails exactly when neither a match nor a path out of the memory starts there; else it is one of these |
| `RegexExec.ShortcutsSound` | libsrc/evalresp/regexp.c:245-282 | Every match starts with the start byte, an anchored pattern matches only at the start, and of every match that ends in the text the required literal is a part |
| `RegexExec.DigOut` | libsrc/evalresp/regexp.c:245-282 | The shortcuts read off the finished program along its top-level chain are those of the pattern |
| `RegexExec.RegComp` | libsrc/evalresp/regexp.c:206-285 | A pattern is accepted exactly when it is the print of a canonical tree whose program is smaller than 32767 bytes; the compiled form is that of the tree, and the error is the first one of the parse |
| `RegexExec.NextLocated` | libsrc/evalresp/regexp.c:1098-1113 | From a node that stands for a continuation, the link leads forward to a node that stands for what follows |
| `RegexExec.MustAppear` | libsrc/evalresp/regexp.c:757-769 | The test for the required literal succeeds exactly when the literal occurs in the text |
| `RegexExec.LiteralOccurs` | libsrc/evalresp/regexp.c:258-281 | A literal among the pieces of a branch occurs inside any match of the branch that lies in the text |
| `RegexExec.LongestIs` | libsrc/evalresp/regexp.c:266-280 | The literal chosen is the longest of its branch, and the last of equals |
| `RegexTerminator.AltsSame` | libsrc/evalresp/regexp.c:898-902 | Whatever stands behind the text: what is matched as meant is exactly what is matched as written and ends in the text |
| `RegexLegs.OverrunsExactly` | libsrc/evalresp/regexp.c:898-902 | The unguarded class test leads behind the text, to a match or out of the memory, in some text and memory exactly for the patterns that can overrun, which is read off the pattern: anchors, groups, repetitions, empty complements and what stands behind the class included |
| `RegexLegs.LegsExactly` | libsrc/evalresp/regexp.c:844-1044 | The kinds of stretches read off a pattern (from where in the text or behind it to where, or out of the memory, empty or not) are exactly those of its matches in some text and memory |
| `RegexLegs.SearchSame` | libsrc/evalresp/regexp.c:737-798 | Where a pattern cannot overrun, every search as written, whatever stands behind the text, stays in the memory and gives the answer that is meant |
| `RegexLegs.GuardedStays` | libsrc/evalresp/regexp.c:898-907 | A pattern in which every class that is not repeated is complemented cannot overrun |
| `RegexInstances.ClassEatsTerminator` | libsrc/evalresp/regexp.c:898-902 | The accepted pattern [a] is found in the empty text, where nothing matches as meant |
| `RegexInstances.ClassesEatNuls` | libsrc/evalresp/regexp.c:898-902 | The accepted pattern $[a][b] is found in "x" if a second NUL follows the terminator |
| `RegexInstances.ByteBehindClass` | libsrc/evalresp/regexp.c:898-902 | The accepted pattern [a]b is found in "x" if a b follows the terminator, and reads outside the memory if nothing does |
| `RegexInstances.MustHides` | libsrc/evalresp/regexp.c:757-769 | The accepted pattern b*[a]c matches behind the empty text if a c stands there, but no search finds it, because the c is looked for in the text first |
| `RegexInstances.AnchorBehindClass` | libsrc/evalresp/regexp.c:868-871 | [a]^ cannot overrun, though a class stands alone in it: what passes the terminator fails at the anchor |
| `RegexCompiler.TwoPasses` | libsrc/evalresp/regexp.c:206-243 | The dry pass counts exactly the bytes the second pass writes, all inside the allocation, and the program is the layout of the syntax tree |
| `RegexCompiler.Compiler.Reg` | libsrc/evalresp/regexp.c:296-368 | Emits the layout of the parsed expression, in either pass, and reports the same errors as the parse |
| `RegexCompiler.Compiler.RegMore` | libsrc/evalresp/regexp.c:331-341 | Each further branch is emitted behind the others and linked from the one before |
| `RegexCompiler.Compiler.RegClose` | libsrc/evalresp/regexp.c:343-349 | The closing node is emitted and the tail of every branch linked to it |
| `RegexCompiler.Compiler.RegBranch` | libsrc/evalresp/regexp.c:375-403 | Emits the pieces of a branch, each linked to the next; the flags are those of the pieces |
| `RegexCompiler.Compiler.RegPiece` | libsrc/evalresp/regexp.c:414-473 | Emits a piece with its repetition, by shifting what the operand emitted and linking its tail |
| `RegexCompiler.Compiler.EmitStar` | libsrc/evalresp/regexp.c:439-447 | Turns an emitted operand x into (x&|), & looping back to the start |
| `RegexCompiler.Compiler.EmitPlus` | libsrc/evalresp/regexp.c:450-458 | Turns an emitted operand x into x(&|), & looping back to x |
| `RegexCompiler.Compiler.EmitOpt` | libsrc/evalresp/regexp.c:459-467 | Turns an emitted operand x into (x|) |
| `RegexCompiler.Compiler.RegAtom` | libsrc/evalresp/regexp.c:483-596 | Emits the node or group the atom parses to, and reports its errors |
| `RegexCompiler.Compiler.RegClass` | libsrc/evalresp/regexp.c:503-544 | Emits the bytes a bracket expression lists, ranges written out, and its terminator |
| `RegexCompiler.Compiler.RegInsert` | libsrc/evalresp/regexp.c:640-663 | A node is put in front of the operand, whose bytes move up unchanged |
| `RegexCompiler.Compiler.RegTail` | libsrc/evalresp/regexp.c:668-694 | Links the last node of the chain, and changes nothing else |
| `RegexCompiler.Compiler.RegOpTail` | libsrc/evalresp/regexp.c:699-707 | Links the tail of the operand of a BRANCH; other nodes are left alone |
| `RegexCompiler.Compiler.RegNode` | libsrc/evalresp/regexp.c:601-621 | Adds a node with a null link to the program, or three to the count |
| `RegexCode.PieceHook` | libsrc/evalresp/regexp.c:414-473 | Linking the tail of an unlinked piece gives the linked piece |
| `RegexCode.GroupHook` | libsrc/evalresp/regexp.c:296-368 | Linking the closing node of an unlinked group gives the linked group |
| `RegexCode.AtomHook` | libsrc/evalresp/regexp.c:483-596 | Linking the tail of an unlinked atom gives the linked atom |
| `RegexCode.StarSteps` | libsrc/evalresp/regexp.c:439-447 | The five steps for x* turn an unlinked operand into its loop |
| `RegexCode.PlusSteps` | libsrc/evalresp/regexp.c:450-458 | The steps for x+ turn an unlinked operand into its loop |
| `RegexCode.HookNode` | libsrc/evalresp/regexp.c:320-349 | The branches of a choice are linked one to the next, the last to the end of the choice |
| `RegexCode.CloseStep` | libsrc/evalresp/regexp.c:347-349 | One round of the loop that links the branches to the closing node |
| `RegexCode.OpenExtend` | libsrc/evalresp/regexp.c:331-341 | A linked choice with a branch added behind it |
| `RegexLinks.ProgramLinks` | libsrc/evalresp/regexp.c:668-707 | At every node of a finished program the link is null or lands on a node; it leads forward except from BACK; from a BRANCH it leads to a later alternative of the same choice or to no BRANCH |
| `RegexLinks.ProgramTiled` | libsrc/evalresp/regexp.c:601-663 | Those nodes are what reading the program node by node gives, from behind the magic byte to its end |
| `RegexLinks.AtomLaid` | libsrc/evalresp/regexp.c:483-596 | The nodes of an atom follow one another in the code, each with its opcode and its link |
| `RegexLinks.PieceGood` | libsrc/evalresp/regexp.c:414-473 | Inside a piece every link lands on a node of the piece or leads out to what follows, and no BRANCH leads out |
| `RegexLinks.AltsGood` | libsrc/evalresp/regexp.c:296-368 | Inside a choice every link lands on a node of it or leads out to its end |
| `RegexCanonical.ParsesAsTree` | libsrc/evalresp/regexp.c:206-596 | A pattern parses exactly if it is the print of a canonical tree, and it parses as that tree |
| `RegexCanonical.PrintsApart` | libsrc/evalresp/regexp.c:206-596 | No two canonical trees are printed alike, so a pattern has one tree |
| `RegexCanonical.ShownParses` | libsrc/evalresp/regexp.c:206-596 | Parsing the print of a canonical tree gives the tree back |
| `RegexCanonical.RegCanon` | libsrc/evalresp/regexp.c:206-596 | What the parser builds is canonical: runs of ordinary bytes are whole except for a byte a multiplier takes, class elements mean what they say where they stand, groups are numbered in the order of their parentheses |
| `RegexGrammar.RegError` | libsrc/evalresp/regexp.c:296-368 | The errors marked as impossible never arise |
| `RegexGrammar.LiteralAlone` | libsrc/evalresp/regexp.c:569-592 | A repetition mark never applies to more than one literal byte |
| `RegexMeaning.AltsWidth` | libsrc/evalresp/regexp.c:306-341 | An expression flagged as having width consumes at least one byte whenever it matches |
| `RegexMeaning.PieceWidth` | libsrc/evalresp/regexp.c:433-458 | The same for a piece: a repetition or option is never counted as having width, x+ is |
| `RegexMeaning.AtomWidth` | libsrc/evalresp/regexp.c:483-596 | The same for an atom |
| `RegexMeaning.WideExactly` | libsrc/evalresp/regexp.c:483-596 | An atom lacks that flag exactly if it matches the empty text |
| `RegexMeaning.AltsWideExactly` | libsrc/evalresp/regexp.c:296-368 | And so does a whole expression |
| `RegexMeaning.SimpleExactly` | libsrc/evalresp/regexp.c:483-596 | An atom that is no group is flagged as simple exactly if its matches consume one byte |
| `RegexMeaning.StarCases` | libsrc/evalresp/regexp.c:437-447 | Repetition stops at once or matches once and goes on |
| `RegexMatcher.Matcher.RegMatch` | libsrc/evalresp/regexp.c:844-1044 | Running the code from a node fails exactly when the continuation the node stands for can neither reach the end of the pattern nor leave the memory; success stands where the end was reached; and every run in a memory of any size terminates |
| `RegexMatcher.Matcher.RegChoice` | libsrc/evalresp/regexp.c:974-994 | The alternatives of a choice are tried until one leads on; it fails only if none does |
| `RegexMatcher.Matcher.RegStar` | libsrc/evalresp/regexp.c:995-1025 | Giving back matches one by one finds a way on whenever some number of repetitions leads on |
| `RegexMatcher.Matcher.RegRepeat` | libsrc/evalresp/regexp.c:1049-1093 | Counts the longest run of matches of a simple operand: exactly the shorter runs are repetitions; or the run goes on to the end of the memory |
| `RegexMatcher.Matcher.RegTest` | libsrc/evalresp/regexp.c:868-907 | A node that tests the input succeeds exactly when the atom matches there, and consumes what it matches; or it reads outside the memory |
| `RegexMatcher.StrChrFinds` | libsrc/evalresp/regexp.c:898-907 | The search of a class operand finds its bytes and the terminator |
| `RegexMatcher.ClassBytesHas` | libsrc/evalresp/regexp.c:503-544 | The operand of a class lists exactly the bytes of its elements and ranges |
| `RegexMatcher.RunTimes` | libsrc/evalresp/regexp.c:1049-1093 | In a maximal run of single matches, n repetitions exist exactly for each shorter length |
| `RegexPaths.ExposePaths` | libsrc/evalresp/regexp.c:844-1044 | The node at the start of a continuation leads exactly where the continuation does |
| `RegexPaths.ExposeShows` | libsrc/evalresp/regexp.c:844-1044 | The code at the position of a continuation shows the node it exposes, linked to what follows |
| `RegexPaths.ExposeAdvances` | libsrc/evalresp/regexp.c:844-1044 | Every step of the machine consumes input or shrinks a bound: no loop is taken up again without input in between |
| `RegexPaths.StarPaths` | libsrc/evalresp/regexp.c:439-447 | A loop can be left at once or taken once more |
| `RegexPaths.ReachGone` | libsrc/evalresp/regexp.c:844-1044 | Who has read outside the memory is taken to reach the end: nothing is claimed of such a run |
| `PermuteArgs.GcdIsGreatest` | src/vcs_getopt.h:160-174 | The result divides both numbers, and every common divisor divides it |
| `PermuteArgs.Bezout` | src/vcs_getopt.h:160-174 | The result is an integer combination of the two numbers |
| `PermuteArgs.Gcd` | src/vcs_getopt.h:160-174 | The loop computes the greatest common divisor |
| `PermuteArgs.OrbitCloses` | src/vcs_getopt.h:189-212 | After as many steps as a cycle is long, every position is back where it started |
| `PermuteArgs.OrbitOpen` | src/vcs_getopt.h:189-212 | Not earlier |
| `PermuteArgs.OrbitDistinct` | src/vcs_getopt.h:189-212 | The positions of one cycle are distinct |
| `PermuteArgs.OrbitCovers` | src/vcs_getopt.h:189-212 | Every position that differs by a multiple of the gcd is reached within one cycle |
| `PermuteArgs.OrbitResidue` | src/vcs_getopt.h:189-212 | Positions on one cycle agree modulo the gcd, so different cycles are disjoint |
| `PermuteArgs.CyclesCover` | src/vcs_getopt.h:189-212 | The cycles through the first gcd-many positions of the second block cover the range |
| `PermuteArgs.WalkCycle` | src/vcs_getopt.h:196-212 | The swaps along one cycle put its elements in place and touch no other |
| `PermuteArgs.Permute` | src/vcs_getopt.h:176-213 | The result is the second block followed by the first, each in its order, with everything outside untouched |
| `Getopt.Run` | src/vcs_getopt.h:432-645 | A permuting run, with long options or without, that is repeated until -1 comes back terminates, and leaves the program name, the options with their arguments, the other arguments, and what followed `--`; optind is the first non-option; the calls return the options in their order, each with its argument or what is reported in its place |
| `Getopt.SplitIsStable` | src/vcs_getopt.h:432-645 | Each of these groups is the subsequence of the original vector at its positions: the order inside is unchanged |
| `Getopt.SplitPermutes` | src/vcs_getopt.h:432-645 | Together the groups hold exactly the original arguments |
| `Getopt.Parser.GetoptInternal` | src/vcs_getopt.h:432-645 | One call keeps the account of what has been read and skipped and reports the next option with its argument, or ends the run with the vector in its final order; without permuting the vector stays as it is, and a call stops at a non-option, at `--` or at the end as the mode says |
| `Getopt.Parser.NextElement` | src/vcs_getopt.h:469-553 | Skips to the next option, exchanging blocks on the way, or ends the run at the end of the vector or at `--`; without permuting it stops or returns the non-option |
| `Getopt.Parser.Skip` | src/vcs_getopt.h:515-528 | Options read since the last skipped block move in front of it, and the argument joins the block |
| `Getopt.Parser.LastExchange` | src/vcs_getopt.h:476-491 | The last exchange puts all options in front, and optind on the first non-option |
| `Getopt.Parser.AtDashDash` | src/vcs_getopt.h:533-552 | `--` counts as the last option, and what follows it is left alone |
| `Getopt.Parser.ParseLongOptions` | src/vcs_getopt.h:291-426 | A long option uses the next argument exactly when it needs one and none is attached; what is returned, and what `optopt` and the index are set to, in every case |
| `Getopt.Parser.LookUp` | src/vcs_getopt.h:319-344 | The loop over the table computes the entry and the ambiguity below |
| `Getopt.FindLongIs` | src/vcs_getopt.h:319-344 | A long option stands for the first entry with exactly its name, and else for the first it abbreviates, ambiguous exactly if it abbreviates one that is read differently |
| `Getopt.Parser.ShortOption` | src/vcs_getopt.h:579-644 | A short option that is listed with an argument takes the rest of its word, and else the next one unless the argument is optional; one that is listed without takes none; what is returned, and where reading goes on, in every case |
| `Getopt.Exchanged` | src/vcs_getopt.h:518-524 | After an exchange the block of options stands in front of the skipped block |
| `Getopt.JoinSkip` | src/vcs_getopt.h:494-528 | Skipping a non-option moves it from what is ahead to what has been skipped |
| `Getopt.TurnTakes` | src/vcs_getopt.h:432-645 | The option that a turn reports uses up the next argument exactly if the account of the vector says that it takes it |
| `Getopt.SameTurn` | src/vcs_getopt.h:432-645 | What a turn reports depends only on what is ahead, not on what has been exchanged before it |
| `OptionString.EntryMeans` | src/vcs_getopt.h:579-644 | In an option string written from entries with distinct characters, one is read as taking an argument exactly if its entry has one, required or optional, and as taking it optionally exactly if it is optional |
| `OptionString.ListMeans` | src/vcs_getopt.h:586-592 | The characters that are found in it are those of the entries |
| `GetoptItems.RunItems` | src/vcs_getopt.h:432-645 | A vector of plain arguments, groups of short options and long options, with arguments glued on or apart: the run reports the options with the arguments meant, in order, and leaves the options, then the plain arguments, then what followed `--` |
| `GetoptItems.ItemsSplit` | src/vcs_getopt.h:432-645 | Such a vector is divided into its options and its plain arguments |
| `GetoptItems.ItemsReport` | src/vcs_getopt.h:432-645 | The calls of a run on it report its options with their arguments, in order |
| `GetoptItems.ItemReads` | src/vcs_getopt.h:469-645 | A plain argument is skipped, and an option spans exactly the words it was written as |
| `GetoptItems.ClusterTakes` | src/vcs_getopt.h:579-644 | A group of short options uses the next word exactly if its last option asks for an argument and has none glued on |
| `GetoptItems.LongTakesIs` | src/vcs_getopt.h:353-385 | A long option uses the next word exactly if it requires an argument and none is attached |
| `MxmlNode.Add` | libsrc/mxml/mxml-node.c:42-166 | Taking a node from its old parent and putting it before, after, first or last refines deletion from and insertion into child sequences; put beside itself, the node is linked to itself |
| `MxmlNode.Remove` | libsrc/mxml/mxml-node.c:639-695 | The node leaves its parent: the links are those of the child sequence without it |
| `MxmlNode.Link` | libsrc/mxml/mxml-node.c:82-154 | In all four cases the new child stands between the two nodes on either side, and no other link changes |
| `MxmlNode.Unlink` | libsrc/mxml/mxml-node.c:669-681 | Exactly the neighbours, or the ends of the child list, are joined |
| `MxmlNode.ReadyToLink` | libsrc/mxml/mxml-node.c:84-154 | The pointers followed lead to the nodes around the new position |
| `MxmlNode.AttachedWf` | libsrc/mxml/mxml-node.c:42-166 | A node that is not above its new parent leaves the forest free of cycles, with consistent parents and children |
| `MxmlNode.NoForest` | libsrc/mxml/mxml-node.c:42-166 | A node above its new parent closes a cycle: no such forest exists |
| `MxmlNode.NoLoop` | libsrc/mxml/mxml-node.c:42-166 | In a tree no node is its own neighbour |
| `MxmlNode.DetachedLinks` | libsrc/mxml/mxml-node.c:639-695 | Which links of which nodes change when a node leaves its parent |
| `MxmlNode.AttachedLinks` | libsrc/mxml/mxml-node.c:42-166 | Which links of which nodes change when a node joins a parent |
| `MxmlNode.New` | libsrc/mxml/mxml-node.c:833-876 | A new node without links, or the last child of its parent |
| `MxmlForest.WithoutLinks` | libsrc/mxml/mxml-node.c:669-681 | Taking an element out of a sequence joins its neighbours and nothing else |
| `MxmlForest.InsertedLinks` | libsrc/mxml/mxml-node.c:84-154 | Putting an element in links it with both sides and changes nothing else |
| `MxmlForest.PostLists` | libsrc/mxml/mxml-node.c:202-236 | The order of freeing lists exactly the nodes at and below one, each once |
| `MxmlForest.PostOrder` | libsrc/mxml/mxml-node.c:202-236 | Every node is listed before its parent |
| `MxmlForest.PostSiblings` | libsrc/mxml/mxml-node.c:202-236 | The nodes below an earlier child are freed before those below a later one |
| `MxmlForest.PreHas` | libsrc/mxml/mxml-search.c:205-232 | Document order lists exactly the nodes at and below one |
| `MxmlForest.PreDistinct` | libsrc/mxml/mxml-search.c:205-232 | Document order lists no node twice |
| `MxmlForest.Spread` | libsrc/mxml/mxml-search.c:205-272 | A node and all below it stand together in document order, between what precedes and what follows |
| `MxmlDelete.Delete` | libsrc/mxml/mxml-node.c:177-242 | The node is taken out, and it and all below it are freed, each once and after its children; no freed node is read, and the rest of the forest, with the old parent's other children, stays as it was |
| `MxmlDelete.DeleteChildren` | libsrc/mxml/mxml-node.c:202-236 | The loop without a stack frees the nodes below in the recursive order and terminates |
| `MxmlDelete.StepDown` | libsrc/mxml/mxml-node.c:208-216 | Clearing the child pointer and going down leaves the same nodes to be freed in the same order |
| `MxmlDelete.StepOn` | libsrc/mxml/mxml-node.c:218-235 | Going on to the sibling or back to the parent leaves the rest to be freed in the same order |
| `MxmlDelete.Release` | libsrc/mxml/mxml-node.c:729-744 | The last reference deletes the tree; before that nothing but the count changes, and the counts of other nodes never do |
| `MxmlDelete.Retain` | libsrc/mxml/mxml-node.c:753-760 | Counts one more reference |
| `MxmlSearch.WalkNext` | libsrc/mxml/mxml-search.c:205-232 | Returns the next node in document order below the top, or, without descent, the next one that is not below |
| `MxmlSearch.AheadIs` | libsrc/mxml/mxml-search.c:205-232 | What is ahead of a node is what follows it in the list of all nodes below the top |
| `MxmlSearch.WalkPrev` | libsrc/mxml/mxml-search.c:243-272 | Returns the previous node in document order below the top, or, without descent, the previous sibling or the parent |
| `MxmlSearch.WalksInvert` | libsrc/mxml/mxml-search.c:205-272 | Below the top, one node is the next of another exactly if that one is its previous |
| `MxmlSearch.WalkAll` | libsrc/mxml/mxml-search.c:205-232 | Walking on from the top until NULL visits every node below it, each once, in document order |
| `MxmlSearch.FindElement` | libsrc/mxml/mxml-search.c:58-107 | Returns the first matching node among those ahead, or among the siblings, and NULL only if none matches |
| `MxmlSearch.MatchesMeans` | libsrc/mxml/mxml-search.c:74-97 | A node matches exactly if it is an element with the name, the attribute and the value asked for |
| `MxmlSearch.CandidatesMean` | libsrc/mxml/mxml-search.c:58-107 | With full descent the search looks at all that follows in document order; with `MXML_DESCEND_FIRST` at a node's children, and with `MXML_NO_DESCEND` at its later siblings, where it has any |
| `MxmlSearch.NextAhead` | libsrc/mxml/mxml-search.c:205-232 | The nodes ahead are the next one and those ahead of that |
| `MxmlIndex.New` | libsrc/mxml/mxml-index.c:308-455 | The index holds, sorted and each once, exactly the elements of the tree that are asked for: all at and below the start node, or those below it that have the element name and the attribute |
| `MxmlIndex.WantedIs` | libsrc/mxml/mxml-index.c:339-379 | What is wanted is, node by node: without element and attribute exactly the elements at and below the start node, with either exactly the elements strictly below it that have the name and the attribute; each once |
| `MxmlIndex.FoundMeans` | libsrc/mxml/mxml-index.c:100-271 | What a search then asks for is exactly the nodes held that have the name and the value, each once |
| `MxmlIndex.Collect` | libsrc/mxml/mxml-index.c:344-379 | Repeated searches enumerate exactly the matching nodes in document order |
| `MxmlIndex.Sort` | libsrc/mxml/mxml-index.c:583-655 | The quicksort terminates in a sorted permutation of its range and touches nothing outside |
| `MxmlIndex.Partition` | libsrc/mxml/mxml-index.c:600-645 | The pivot ends between the elements not greater and those greater |
| `MxmlIndex.SortStep` | libsrc/mxml/mxml-index.c:600-654 | Sorting what is in front of the pivot leaves everything up to the pivot sorted and not greater than the rest |
| `MxmlIndex.LeTrans` | libsrc/mxml/mxml-index.c:501-533 | The comparison of nodes is transitive |
| `MxmlIndex.LeTotal` | libsrc/mxml/mxml-index.c:501-533 | The comparison of nodes is total |
| `MxmlIndex.SortedFalls` | libsrc/mxml/mxml-index.c:540-574 | In a sorted index a search by element name, with or without a value, meets larger, then equal, then smaller keys |
| `MxmlIndex.AscendingFalls` | libsrc/mxml/mxml-index.c:540-574 | So does a search by value alone where the values ascend along the index |
| `MxmlIndex.SameNameAscends` | libsrc/mxml/mxml-index.c:501-574 | They do in an index over elements of one name |
| `MxmlIndex.CompleteMeans` | libsrc/mxml/mxml-index.c:153-270 | Repeated calls return all matches exactly if the first returns the first match and the matches follow one another without a gap |
| `MxmlIndex.FallingComplete` | libsrc/mxml/mxml-index.c:153-270 | A search that fits the order of the index returns exactly the matching nodes, each once and in index order |
| `MxmlIndex.HalveFirst` | libsrc/mxml/mxml-index.c:153-233 | The modified binary search then returns the first match |
| `MxmlByValue.ByValueExactly` | libsrc/mxml/mxml-index.c:153-270 | Searching by value alone finds all matches, for every value, exactly if the values ascend along the index or it has just two nodes |
| `MxmlByValue.SecondMissed` | libsrc/mxml/mxml-index.c:153-233 | Otherwise it can miss: in an index over a, b, c with the values 2, 1, 3 the search for 2 returns nothing |
| `MxmlByValue.Sides` | libsrc/mxml/mxml-index.c:168-213 | Where nothing is missed, the middle of each range the search comes to has no greater value before it and no smaller one behind |
| `MxmlIndex.Index.FirstMatch` | libsrc/mxml/mxml-index.c:153-245 | The loops compute the position the modified binary search comes to, for any search |
| `MxmlIndex.Index.Find` | libsrc/mxml/mxml-index.c:100-271 | One call returns the node at the next position found and puts the cursor behind it, or returns NULL, for any search |
| `MxmlIndex.Index.FindEach` | libsrc/mxml/mxml-index.c:100-271 | A reset and repeated calls with an element name return exactly the matching nodes, each once and in index order |
| `MxmlIndex.IndexThenFind` | libsrc/mxml/mxml-index.c:100-455 | Building an index and searching it by element name gives, each once, exactly the nodes of the tree that the index is over and that have the name and the value |
| `MxmlIndex.Index.Enum` | libsrc/mxml/mxml-index.c:70-88 | Returns the node at the cursor and moves on, until the end |
| `MxmlIndex.Index.Reset` | libsrc/mxml/mxml-index.c:466-494 | Puts the cursor on the first node and returns that node |
| `Basics.StrCmpTrans` | libsrc/mxml/mxml-index.c:501-574 | The string comparison the index and the entity table rest on is transitive |
| `Basics.StrCmpSwap` | libsrc/mxml/mxml-index.c:501-574 | It is zero only for equal strings and changes its sign when they change places |
| `MxmlAttr.Attributes.Set` | libsrc/mxml/mxml-attr.c:287-349 | Overwrites the attribute of that name or adds it behind the others |
| `MxmlAttr.Attributes.Get` | libsrc/mxml/mxml-attr.c:99-149 | Returns the value of the first attribute of that name |
| `MxmlAttr.Attributes.Delete` | libsrc/mxml/mxml-attr.c:37-89 | Removes the attribute of that name; the ones behind close up in order |
| `MxmlAttr.SetThenGet` | libsrc/mxml/mxml-attr.c:99-349 | What is set is read back, other attributes keep their values, and names stay distinct |
| `MxmlAttr.DeleteThenGet` | libsrc/mxml/mxml-attr.c:37-149 | A deleted attribute is gone, other attributes keep their values, and names stay distinct |
| `MxmlAttr.GetAttrIs` | libsrc/mxml/mxml-attr.c:99-149 | A value is returned exactly if the first attribute of the name has it |
| `MxmlEntity.EntityValue` | libsrc/mxml/mxml-entity.c:138-441 | In a sorted table the binary search returns the value of a name exactly if the table has it, and else -1 |
| `MxmlEntity.Side` | libsrc/mxml/mxml-entity.c:415-428 | A name that sorts before a row is in none of the rows from there on, and likewise behind |
| `MxmlEntityTable.EntitiesStandard` | libsrc/mxml/mxml-entity.c:149-408 | The table of the source meets what the search, the writer and the loader ask of one: it is sorted, its values are characters, and the four names the writer uses lead back to their characters |
| `MxmlEntityTable.EntitiesSorted` | libsrc/mxml/mxml-entity.c:149-408 | All 257 names are in the order of strcmp, each before the next, and so altogether |
| `MxmlEntityTable.InOrder` | libsrc/mxml/mxml-entity.c:149-408 | Names in order one by one are in order altogether |
| `MxmlUtf8.CharBuffer.AddChar` | libsrc/mxml/mxml-file.c:588-661 | Appends the bytes of the character; the buffer has room for the longest sequence and always for a terminator |
| `MxmlUtf8.CharBuffer.Grow` | libsrc/mxml/mxml-file.c:597-619 | Growing keeps the contents and makes room for the longest sequence |
| `MxmlUtf8.WriteThenRead` | libsrc/mxml/mxml-file.c:588-661 | A character from 1 to 0x1FFFFF that is written is read back exactly if it is no bad control and not 0xFEFF |
| `MxmlUtf8.ReadIsWritten` | libsrc/mxml/mxml-file.c:2365-2512 | What is read as a character is its one encoding: overlong sequences are refused |
| `MxmlUtf8.WriteThenReadAll` | libsrc/mxml/mxml-file.c:588-661 | Any sequence of legal characters that is written is read back |
| `MxmlUtf8.EncodeMeans` | libsrc/mxml/mxml-file.c:588-661 | The bytes written are those of the table in section 3 of RFC 3629: lead and continuation bytes in their ranges, the bits of the character in order, in the shortest form |
| `MxmlWrite.WriteNode` | libsrc/mxml/mxml-file.c:2714-3027 | The walk without a stack writes exactly the text, and counts the column, of the recursive serializer |
| `MxmlWrite.Climb` | libsrc/mxml/mxml-file.c:2983-3022 | Leaving finished elements writes their closing tags up to the next node or the top |
| `MxmlWrite.FinishDown` | libsrc/mxml/mxml-file.c:2969-2974 | Descending to the first child leaves the same text to be written |
| `MxmlWrite.FinishAlong` | libsrc/mxml/mxml-file.c:2969-3022 | Going on to a sibling, or closing the parent, leaves the same text to be written |
| `MxmlWrite.WriteOpen` | libsrc/mxml/mxml-file.c:2742-2866 | The opening tag with its attributes, broken into lines at the margin |
| `MxmlMargin.MarginKept` | libsrc/mxml/mxml-file.c:2789-2843 | The line is broken in front of an attribute exactly if it would have passed the margin; behind it the column is at most one past the margin, or the attribute stands alone on its line |
| `MxmlMargin.ColumnKept` | libsrc/mxml/mxml-file.c:2789-2843 | The column counted is the length of the last line written, where nothing is escaped and no value breaks a line |
| `MxmlWrite.WriteString` | libsrc/mxml/mxml-file.c:3034-3067 | Exactly the four characters with names are written as entities |
| `MxmlTree.EscapeClean` | libsrc/mxml/mxml-file.c:3034-3067 | Escaped text holds no `<`, `>` or `"`, and text is left alone exactly if it holds none of these and no `&` |
| `MxmlWrite.WriteName` | libsrc/mxml/mxml-file.c:2639-2707 | A name is copied, or, if it starts with a quote, escaped up to the closing one |
| `MxmlSpelled.LoadSpelled` | libsrc/mxml/mxml-file.c:1378-2090 | Loading a document however it is spelled, with values in quotes of either kind or none, white space in the tags, entities for any characters, short or full tags, and text around the root, gives the document that is spelled, or nothing exactly where an element has two attributes of one name |
| `MxmlSpelled.Mismatched` | libsrc/mxml/mxml-file.c:1901-1941 | A closing tag that has not the name of the element last opened, or finds none open, ends the load, whatever follows |
| `MxmlSpelled.SecondRoot` | libsrc/mxml/mxml-file.c:1949-1958 | So does an opening tag behind the root |
| `MxmlSpelled.ValueMissing` | libsrc/mxml/mxml-file.c:2237-2312 | So does an attribute without a value |
| `MxmlSpelled.NameRefused` | libsrc/mxml/mxml-file.c:1562-1580 | So does a character in the name of a tag that no name holds |
| `MxmlSpelled.UnknownEntity` | libsrc/mxml/mxml-file.c:1317-1371 | So does an entity the table does not have |
| `MxmlSpelled.CutOff` | libsrc/mxml/mxml-file.c:2055-2078 | Input that ends inside two elements or more is no document; where only the root is open it is returned as closed, without the text it ends in |
| `MxmlSpelled.ReadElem` | libsrc/mxml/mxml-file.c:1944-2019 | Reading an element in any spelling adds exactly that element to what has been loaded, or ends the load where a name is given twice |
| `MxmlSpelled.ReadAll` | libsrc/mxml/mxml-file.c:1437-2042 | Reading children in any spelling adds exactly those children |
| `MxmlSpelled.TextRun` | libsrc/mxml/mxml-file.c:2022-2042 | A text is gathered whichever of its characters are written as entities |
| `MxmlSpelled.OutsideRun` | libsrc/mxml/mxml-file.c:1460-1552 | Text outside the root adds nothing |
| `MxmlReading.OpenRound` | libsrc/mxml/mxml-file.c:1944-2019 | An opening tag opens its element, or a short one adds it, with the attributes given in it, or is refused as a second root or for a name given twice |
| `MxmlReading.CloseRound` | libsrc/mxml/mxml-file.c:1901-1941 | A closing tag closes the current element if it has its name, and else ends the load |
| `MxmlReading.GivensRead` | libsrc/mxml/mxml-file.c:2097-2358 | The attributes of a tag are returned in order, or refused where a name is given twice |
| `MxmlReading.GivenRead` | libsrc/mxml/mxml-file.c:2175-2337 | One attribute is added, whatever the quotes and the white space, or refused if its name is there |
| `MxmlReading.AttrValueRead` | libsrc/mxml/mxml-file.c:2243-2300 | A value is read as meant in quotes of either kind, and without quotes up to white space, `/` or `>` |
| `MxmlReading.ValueRead` | libsrc/mxml/mxml-file.c:2253-2276 | A quoted value is read up to its quote, whichever kind that is and whichever characters are written as entities |
| `MxmlReading.NameRead` | libsrc/mxml/mxml-file.c:2182-2236 | An attribute name is read up to white space or what stands behind it |
| `MxmlReading.TagNameRun` | libsrc/mxml/mxml-file.c:1560-1587 | The name in a tag is gathered as it is meant |
| `MxmlReading.SignRead` | libsrc/mxml/mxml-file.c:1317-1371 | A character is read as it is or from any entity the table leads to it |
| `MxmlReading.FirstKept` | libsrc/mxml/mxml-file.c:2184 | The first character of a name, or of a value without quotes, is kept exactly if it is ASCII |
| `MxmlRoundTrip.LoadWritten` | libsrc/mxml/mxml-file.c:1378-2090 | Loading what was written for a document in normal form, with or without a final newline, rebuilds the same document exactly if all attribute names start with ASCII characters, for any column and margin |
| `MxmlRoundTrip.LoadGives` | libsrc/mxml/mxml-file.c:1378-2358 | What loading it gives in every case: the document with attribute names as stored, or nothing where two names of an element collide as stored |
| `MxmlRoundTrip.TreeWritten` | libsrc/mxml/mxml-file.c:2714-3027 | What is written for a document in normal form is a spelling of the document as it is stored |
| `MxmlRoundTrip.AttrsWritten` | libsrc/mxml/mxml-file.c:2789-2843 | What is written for its attributes spells them as they are stored, for any margin |
| `MxmlRoundTrip.TextWritten` | libsrc/mxml/mxml-file.c:3034-3067 | An escaped text spells the text, in an element and between double quotes |
| `MxmlNormal.TreeSame` | libsrc/mxml/mxml-file.c:2184 | A document is stored as it is exactly if all its attribute names start with ASCII characters |
| `MxmlNormal.StoredSame` | libsrc/mxml/mxml-file.c:2184 | So is one name |
| `MxmlRoundTrip.BeyondAsciiLost` | libsrc/mxml/mxml-file.c:2184 | An attribute whose name is one character beyond ASCII comes back with the low byte of that character as its name |
| `MxmlRoundTrip.WriteFrom` | libsrc/mxml/mxml-file.c:2714-3027 | What is written for a document depends only on the column |
| `MxmlDocument.SaveThenLoad` | libsrc/mxml/mxml-file.c:1378-2090 | Walking the links of a tree in normal form to write it and loading the text with the table of the source returns the document the tree stands for, as stored, and the same document exactly if its attribute names start with ASCII characters |
| `MxmlLoader.LoadData` | libsrc/mxml/mxml-file.c:1378-2090 | The main loop computes the loader function, errors included; what that gives for any spelling of a document is `LoadSpelled` |
| `MxmlLoader.ReadMarkup` | libsrc/mxml/mxml-file.c:1554-2020 | Tags open, close or end an element, or are refused |
| `MxmlLoader.ParseElement` | libsrc/mxml/mxml-file.c:2097-2358 | The attribute loop computes the attribute function, refusing duplicates and missing values; what that gives for any quotes and white space is `GivensRead` |
| `MxmlLoader.ReadEntity` | libsrc/mxml/mxml-file.c:1317-1371 | An entity is looked up by its name, which ends at the semicolon |
| `MxmlLoader.ReadTagName` | libsrc/mxml/mxml-file.c:1560-1587 | The name loop stops at white space, `>` or a later `/` |
| `MxmlLoader.ReadQuotedValue` | libsrc/mxml/mxml-file.c:2253-2276 | A quoted value ends at its quote |
| `ChannelFilter.FilterChannels` | libsrc/evalresp/input.c:2634-2716 | Of all matching channels of one name exactly one is output: without a date the one that ends last, open ends last of all and then by begin; with one the shortest whose epoch holds it, by the length `duration` computes; the last listed of equals; every other channel is freed once or left where it was |
| `ChannelFilter.ChosenUnique` | libsrc/evalresp/input.c:2634-2716 | That decides the output: only one list of positions is such a choice |
| `ChannelFilter.Contest` | libsrc/evalresp/input.c:2652-2688 | The inner loop frees only channels the candidate beats, and stops only at one it loses to |
| `ChannelFilter.Discard` | libsrc/evalresp/input.c:2681-2685 | Freeing a channel that does not beat the candidate keeps every freed channel beaten |
| `ChannelFilter.Lost` | libsrc/evalresp/input.c:2700-2703 | A candidate that loses is beaten by one still to come |
| `ChannelFilter.Won` | libsrc/evalresp/input.c:2689-2699 | A candidate that meets no better one is the only one of its name left |
| `ChannelFilter.YieldsOrder` | libsrc/evalresp/input.c:2458-2526 | Both ways to compare channels are total preorders |
| `ChannelFilter.BeatsTrans` | libsrc/evalresp/input.c:2659-2685 | Being preferred, with the last of equals first, is transitive |
| `ChannelFilter.LosesIs` | libsrc/evalresp/input.c:2659-2680 | Between a matching channel and another of its name, the tests of the loop decide by that preorder |
| `ChannelTime.TimeCmpIs` | libsrc/evalresp/input.c:2418-2454 | For fields in range, comparing them one by one is comparing the times as single numbers |
| `ChannelFilter.EarlierMeans` | libsrc/evalresp/input.c:2458-2491 | `earlier` is: the end is not later, open ends being last and ordered by their begins |
| `ChannelFilter.InEpochMeans` | libsrc/evalresp/input.c:2530-2545 | An epoch reaches from its begin up to its end, which is outside |
| `ChannelFilter.YieldsMeans` | libsrc/evalresp/input.c:2652-2688 | Without a date the later channel is preferred, and with one the shorter, where the lengths fit an int |
| `ChannelFilter.DurationExactly` | libsrc/evalresp/input.c:2513-2527 | `duration` returns the length of the epoch exactly if that fits a 32-bit int |
| `ChannelFilter.LongEpochWraps` | libsrc/evalresp/input.c:2513-2527 | Where it does not fit, the longer of two epochs can be preferred |
| `ChannelFilter.SameMeans` | libsrc/evalresp/input.c:2627-2632 | Channels are the same exactly if all four names are |
| `ChannelTime.EpochOrder` | libsrc/evalresp/input.c:2493-2509 | Later dates come later in seconds since 1970 |
| `ChannelTime.NextYear` | libsrc/evalresp/input.c:2493-2509 | The start of a year counted from 1970 is that of the year before and its days, by the Gregorian rule |
| `PhaseUnwrap.UnwrapOutput` | libsrc/evalresp/output.c:70-86 | The phases keep their values modulo 360, the first lies in [0,360), and every step is the step of the inputs, less one turn exactly where that is more than 180; so it is at most 180 exactly where the inputs are at most 540 apart |
| `PhaseUnwrap.UnwrapSteps` | libsrc/evalresp/calc_fctns.c:774-792 | For phases in [-180,180] every step of the unwrapped run is at most 180 |
| `PhaseUnwrap.UnwrapRunIs` | libsrc/evalresp/calc_fctns.c:774-792 | Unwrapping changes each phase by whole turns, and a step by one turn exactly where it is more than 180 |
| `PhaseUnwrap.WrapRunIs` | libsrc/evalresp/calc_fctns.c:804-818 | Wrapping a run with steps of at most 180 puts every value into [-180,180], changed by whole turns |
| `PhaseUnwrap.WrapStays` | libsrc/evalresp/calc_fctns.c:804-818 | The offset is kept wherever it leaves the value in [-180,180] |
| `PhaseUnwrap.WrapUnwraps` | libsrc/evalresp/resp_fctns.c:775-832 | Unwrapping and wrapping again, without resampling, returns every phase strictly inside (-180,180) exactly |
| `PhaseUnwrap.UnwrapList` | libsrc/evalresp/resp_fctns.c:775-793 | The loop unwraps from zero on, and copies where nothing was unwrapped |
| `PhaseUnwrap.WrapList` | libsrc/evalresp/resp_fctns.c:810-832 | The loop wraps from an offset of whole turns that brings the first value into range |
| `PhaseUnwrap.UnwrapAndWrap` | libsrc/evalresp/resp_fctns.c:775-832 | Both loops one after the other return every phase strictly inside (-180,180) exactly, and every other one changed by whole turns into [-180,180] |
| `FirFold.FoldPreserves` | libsrc/evalresp/resp_fctns.c:189-215 | For any even function that is 1 at 0 and any odd one: the sum over the kept half of a symmetric filter is the full centred sum, and the odd part vanishes, for every length |
| `FirFold.Fir.CheckSymmetry` | libsrc/evalresp/resp_fctns.c:166-216 | The coefficients are normalized, and exactly the symmetric filters are folded, to half their length rounded up |
| `FirFold.Fir.Normalize` | libsrc/evalresp/resp_fctns.c:171-187 | Coefficients whose sum is off by more than the tolerance are divided by it |
| `FirFold.NormalizedFacts` | libsrc/evalresp/resp_fctns.c:171-187 | After that the sum is at most 0.02 from 1; coefficients whose sum was so are as they were, and others sum to 1 in their old proportions; the filter is symmetric exactly if it was |
| `FirFold.Fir.SymTrans` | libsrc/evalresp/calc_fctns.c:323-358 | The loops compute the sum over the kept half, times the gain |
| `FirFold.FoldAndTransform` | libsrc/evalresp/calc_fctns.c:323-358 | A filter is folded exactly if it is symmetric, and then its response is the centred sum of the full filter, normalized |
| `FirFold.Mirror` | libsrc/evalresp/resp_fctns.c:189-215 | The last terms of a symmetric filter add up to the first ones, negated for an odd function |
| `FirFold.RotationCentres` | libsrc/evalresp/calc_fctns.c:397-410 | Rotating the uncentred sums by the angle to the centre gives the centred ones |
| `FirAsym.AsymTrans` | libsrc/evalresp/calc_fctns.c:364-412 | The loops, with modulus and angle taken and undone, give gain times centred sum, for coefficients that are not all equal; for equal ones, the closed form, or no number where it divides by zero |
| `FirAsym.ClosedFormExactly` | libsrc/evalresp/calc_fctns.c:379-388 | Where it is a number the closed form is the response exactly if the gain is 1 or the sum vanishes, and at zero frequency if gain, coefficient and count multiply to 1; off zero it is the centred sum without the gain |
| `FirAsym.EqualSum` | libsrc/evalresp/calc_fctns.c:379-388 | The centred sum of equal coefficients times the sine of half the step is one coefficient times the sine of half of all steps, and its imaginary part vanishes |

## Left out

- RegexExec.RegTry: what sub-expressions matched (`startp`, `endp`) is not recorded, only where the whole match starts and ends; `evr_regsub` and `regdump` are not modelled.
- RegexMatcher.Matcher.RegMatch: for the same reason the OPEN and CLOSE nodes only pass control on. The memory behind the text is finite; what a read outside it gives is left open.
- Getopt.Run: vectors in permuting mode; without a table of long options, those in which no cluster comes to a lone `-` that is not listed (`Smooth`), where a call returns -1 early. The environment variable POSIXLY_CORRECT and the leading `+` or `-` of the option string count by their effect on the mode; the `-W` form and tables with an entry whose value is -1 are outside.
- Getopt.Parser.GetoptInternal: messages to stderr are not modelled, and the index of a matched long option is in the contract of ParseLongOptions only.
- GetoptItems.RunItems: names of long options are written in full; abbreviations are in FindLongIs. Tables that take a single dash (`getopt_long_only`) are in Run only.
- MxmlNode.Add: a node that is above its new parent is excluded, because the result is no tree (`NoForest`).
- MxmlRoundTrip.LoadWritten: for the callback that makes all values opaque and no whitespace callback; documents are elements with safe names, distinct attributes with values, and opaque text that is non-empty, legal UTF-8 and never adjacent to other text.
- MxmlSpelled.LoadSpelled: attribute names in quotes, which the loader keeps as part of the name, are in the loader functions only; no text stands next to another, and the callback makes all values opaque.
- MxmlLoader.LoadData: comments, CDATA sections, processing instructions, declarations, numeric character references and UTF-16 input lead to an outcome of their own (`UnmodelledDocument`); the SAX, custom-data, integer, real and text forms of a node are not modelled. The tree under construction is a value with a stack of open elements, so the links of loaded nodes are not captured there; they are those of `mxml_new`, modelled in MxmlNode.
- MxmlLoader.ReadMarkup: the markup that LoadData leaves out is left out here.
- MxmlLoader.ReadEntity: numeric character references are left out.
- MxmlWrite.WriteNode: nodes are elements or opaque values, and there is no whitespace callback.
- MxmlDocument.SaveThenLoad: for trees of such nodes.
- MxmlEntity.EntityValue: the list of callbacks holds only this one.
- MxmlNode.New: a node's own value is fixed when it is made; attributes set later are modelled on the attribute array alone (MxmlAttr), not inside the tree.
- MxmlIndex.New: growing the node array by 64 is memory handling and is not modelled; an index without an element name or attribute over a start node that is no element is outside, because comparing that node reads the name of an element it has not.
- MxmlIndex.Collect: for the same reason the start node is an element there.
- ChannelFilter.FilterChannels: checking a channel and growing the output are taken to succeed; the warning, the parsing of times and the counting of matched patterns are left out, and the pattern test on the four names is a parameter.
- FirFold.Fir.CheckSymmetry: the warning is left out, and a sum of zero, by which the code divides, is reported as an outcome of its own.
- FirAsym.AsymTrans: cosine, sine, square root and arc tangent are parameters with the laws named `Trig` and `Polar`; a quotient with divisor zero is reported as an outcome of its own.
- PhaseUnwrap.WrapList: the spline between unwrapping and wrapping, and the correction of amplitudes, are left out.
- Failing allocations, file, descriptor and standard I/O, logging, the reading of RESP text, unit and order checks of channels, IIR and analog transfer functions: plumbing or branch-by-branch facts.
- `mxmlFindPath`, accessors and setters of node values, string helpers, the ZIP and documentation tools: they add only easy members.
