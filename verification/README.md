# NAND network catalogue: a verified model

The repository finds, for every set of small logic functions, the smallest network of two-input
NAND gates. It has three parts, and this project models all three.

* **Generator and catalogue** (C++). `gatebuilder` enumerates NAND networks of a given size in an
  odometer order, skipping whole families (unused inputs, swappable gates, repeated input pairs,
  NOT of NOT, gates that are constant or copies), and writes a record per network.
  `nandcombinator` reads the records with many workers, tries all choices of output gates, sorts
  the output truth tables into a search key, and logs a network if no smaller one is known for
  that key.
* **Front end** (PHP). It parses formulas, evaluates them on all rows, strips the truth table
  (constant outputs, copies of inputs, unused variables, equal outputs), sorts what is left,
  encodes it as a key, looks the key up, and wires the stored network back to the user's names.
* **Storage** (C++). A radix tree in byte vectors that live in one growing memory block with a
  single relay buffer, and a fixed-size block allocator.

The main results join the parts: the pruning never loses a minimum network; after an
uninterrupted run every set of functions is logged exactly once with the least number of gates;
the key that the front end asks for is the key under which that line was logged, exactly when no
two tables are too far apart; and the logic map that comes back gives every output the value of
its formula, leaving out exactly those that need gates when no network is stored. The radix tree
refines a map.

A network is a sequence of gates, a truth table column is a sequence of bits, and a row mask is
the set of gates that are 1. Programs that update objects, arrays and counters are classes and
methods with loops; the functions they are proved against, and the lemmas about these, stand
beside them. Concurrent workers are state machines whose steps are the atomic actions of the
program, and the results hold for every interleaving.

`dafny verify dfyconfig.toml` checks everything.

## Files

| files | what they hold |
|---|---|
| `Bits`, `BitStream`, `Integers`, `LexOrder`, `Lists`, `Wrappers` | powers of two, bit fields, 64-bit words, lexicographic order, lists, options |
| `Networks`, `Reductions`, `Renumbering`, `Odometer`, `GateBuilder`, `Optimum` | networks, what a minimum network cannot contain, the canonical gate order, the generator, and why its pruning is safe |
| `Codec`, `Packer`, `PhpCodec` | the 6-bit and 8-bit strings, as both programs write and read them |
| `OutputOrder`, `CanonicalKeys`, `CircularKeys` | the sort of the output tables, and when it makes keys canonical |
| `Combinations`, `Extraction`, `Catalogue`, `Solver` | output choices, column extraction, what a record submits, reading a line back |
| `Insertion`, `Dispatch`, `CatalogueRun`, `Optimality` | the locking protocol, the tickets, whole runs, and the least gate count |
| `Formulas`, `Parsing`, `Precedences`, `Phrases`, `Evaluating` | formulas, the shunting yard, the order of the operators, rendering, evaluation on a 64-bit stack |
| `TableRows`, `Comparator`, `Analysis`, `Analyzer`, `Wiring`, `FrontEnd`, `Assignments`, `EndToEnd` | the normal form of a truth table, the Parser object, which formulas need gates, and a whole query |
| `KeyAgreement`, `QueryOptimality` | front end and catalogue together |
| `Endian`, `VectorLayout`, `VectorStorage`, `Radix*` | bytes, the memory block, and the radix tree |
| `BlockAllocator` | the block allocator |

## Model

| member | source | states |
|---|---|---|
| GateBuilder.Generator.CreateNandCombinations | gatebuilder.cc:123-302 | For any order of the parallel iterations, the records are exactly the acceptable sequences, each once, with true truth tables. |
| GateBuilder.Generator.Explore | gatebuilder.cc:152-295 | One iteration writes exactly the acceptable sequences whose first two gates are its own, in increasing order. |
| GateBuilder.Generator.Search | gatebuilder.cc:179-295 | The jumping odometer misses no acceptable sequence with the given prefix and finds none twice. |
| GateBuilder.Generator.SkipUnusedInputs | gatebuilder.cc:192-216 | The jump to the next digit that reads a missing input passes over no acceptable sequence. |
| GateBuilder.Generator.CheckOrder | gatebuilder.cc:218-239 | Passes exactly networks in canonical order; a rejection names a position up to which no acceptable sequence agrees with the state. |
| GateBuilder.Generator.FindDuplicate | gatebuilder.cc:275-281 | Finds two gates with the same input pair if there are any. |
| GateBuilder.Generator.FindNotNot | gatebuilder.cc:282-294 | Finds an inverter of an inverter if there is one. |
| GateBuilder.Generator.AdjustInitialValues | gatebuilder.cc:164-171 | Moves the start to distinct pairs without passing over an acceptable sequence, or finds that the first two gates are the same. |
| GateBuilder.Generator.EvaluateRow | gatebuilder.cc:69-84 | The state mask is the set of gates that are 1 in the row. |
| GateBuilder.Generator.BadGates | gatebuilder.cc:95-104 | The mask arithmetic finds a suspect gate if there is one, and only such gates. |
| GateBuilder.Generator.Catalogue | gatebuilder.cc:52-121 | Writes the record of a network without trivial gates; otherwise names a gate that is constant or a copy of an input. |
| Reductions.MinimumIsIrredundant | gatebuilder.cc:346-357 | A minimum network for proper functions has no constant gate, no gate that repeats an earlier source, and no unused gate. |
| Renumbering.CanonicalReachable | gatebuilder.cc:218-239 | Every network can be renumbered into the order that the swap check passes. |
| Renumbering.RenumberedColumn | gatebuilder.cc:225-236 | Renumbering moves the truth tables with the gates. |
| Optimum.CanonicalMinimumIsAcceptable | gatebuilder.cc:179-295 | None of the generator's tests rejects a minimum network in canonical order. |
| Optimum.PruningKeepsOptimum | gatebuilder.cc:123-302 | For every cataloguable set of functions and every minimum network for it, a renumbering of the network is acceptable, still minimum, and uses all its gates. |
| Optimum.GenerateOptimum | gatebuilder.cc:123-302 | Running the generator at the minimum size writes a minimum network. |
| Combinations.BuildCombinations | nandcombinator.cc:200-241 | The choices of output gates are all increasing lists of that length, each once, with their masks; there are C(n, k). |
| Combinations.Binomial | nandcombinator.cc:91-110 | The product loop computes C(n, k), for whole numbers up to 1000. |
| Extraction.ExtractTable | nandcombinator.cc:571-583 | The words gathered from the row masks are the column of the gate. |
| Extraction.FaithfulColumn | nandcombinator.cc:571-583 | In a record of the generator that column is the truth table of the gate in its network. |
| OutputOrder.SortOutputs | nandcombinator.cc:271-291 | The in-place insertion sort, which gives up on equal tables, computes the specified order. |
| OutputOrder.SortIsCorrect | nandcombinator.cc:271-291 | If the comparison orders the tables, the sort gives up exactly on duplicates and otherwise returns a strictly descending permutation. |
| OutputOrder.SortIsPermutation | nandcombinator.cc:271-291 | Whatever the comparison does, a returned order is a permutation. |
| OutputOrder.AboveIffClose | nandcombinator.cc:282 | A larger table compares as larger exactly if the highest words that differ differ by less than 2^31. |
| OutputOrder.DescendingIsUnique | nandcombinator.cc:256-291 | A set of tables has only one strictly descending list. |
| CanonicalKeys.DifferentAreSorted | nandcombinator.cc:285-286 | The sort never gives up on different functions. |
| CanonicalKeys.RecognisesRepeats | nandcombinator.cc:285-286 | On functions that the comparison orders, it gives up exactly if one is repeated. |
| CanonicalKeys.SmallIsTopClear | nandcombinator.cc:282 | All words of a table are below 2^31 exactly if the function is 0 in every 32nd row. |
| CanonicalKeys.CanonicalIffOrdered | nandcombinator.cc:256-291 | All arrangements of a set of functions are sorted into one list exactly if the wrapped comparison orders the set. |
| CircularKeys.CanonicalIffFourInputs | nandcombinator.cc:256-291 | Every output list of every record the generator writes has one sorted list, whatever the arrangement, exactly for up to 4 inputs. |
| CircularKeys.CircleIsAcceptable | gatebuilder.cc:123-302 | For each number of inputs from 5 on, the generator writes the network of the counterexample. |
| CircularKeys.CircleIsWanted | nandcombinator.cc:521-596 | The catalogue submits that network with all its gates but one as outputs. |
| CircularKeys.FiveInputsAreMissed | nandcombinator.cc:271-291 | At 5 inputs it is logged in an order in which the front end does not ask for its functions. |
| Packer.BitPacker.AddBits | nandcombinator.cc:304-322 | Appends the field's bits to the stream that the string holds, in a 32-bit cache. |
| Packer.BitPacker.Finish | nandcombinator.cc:324-325 | Pads with zeros; the string holds exactly the stream. |
| Packer.SamePrograms | nandcombinator.cc:296-326 | make_string and the PHP encoder write the same string for the same bits. |
| Packer.BytesInjective | nandcombinator.cc:296-326 | Two 8-bit keys of equally long streams are equal only for equal streams. |
| PhpCodec.Base64Encoder.Put | backend/base64.php:38-48 | On 64-bit words, including wrapped and negative caches; appends the field exactly for widths up to 58. |
| PhpCodec.Base64Encoder.Get | backend/base64.php:49-56 | The string encodes everything put so far. |
| PhpCodec.Base64Decoder.Get | backend/base64.php:15-30 | Takes the next field from the stream, on 64-bit words, for widths up to 58. |
| PhpCodec.RoundTripIffShort | backend/base64.php:15-56 | Fields up to a width all survive encoding and decoding exactly if the width is at most 58. |
| Catalogue.MakeSearchKey | nandcombinator.cc:344-356 | The 8-bit search key holds the sorted columns, one after the other. |
| Catalogue.MakeKey | nandcombinator.cc:327-343 | The logged key encodes the input count, the output count and the sorted columns. |
| Catalogue.MakeWiring | nandcombinator.cc:507-513 | The logged value encodes the sources, 6 bits each, and the sorted outputs, 5 bits each. |
| Catalogue.SaveOrIgnoreResult | nandcombinator.cc:244-519 | Submits nothing exactly if the sort gives up; otherwise key, value and line describe the same sorted outputs. |
| Catalogue.FilterMeaning | nandcombinator.cc:542-556 | The mask test passes exactly if every gate feeds a gate or is an output, and the early test skips no such list. |
| Catalogue.CatalogueOutputs | nandcombinator.cc:531-594 | For one output count, the wanted lists are submitted in order, each once, up to the point at which the completion test finds the count full. |
| Catalogue.CatalogueRecord | nandcombinator.cc:521-596 | Whatever the completion test answers, point by point: only wanted lists are submitted, each once and in order, and for every output count all those before the point at which it is full; a full count does not end the others. |
| Insertion.Knowledge.CheckSection | nandcombinator.cc:373-397 | Under the shared lock, ignores a key exactly if it is known with no more gates. |
| Insertion.Knowledge.CommitSection | nandcombinator.cc:399-439 | Under the exclusive lock, moves the key to its new set and logs it, unless another worker was faster. |
| Insertion.EveryRunIsSafe | nandcombinator.cc:373-439 | In every interleaving a key is in at most one set, that of the least count submitted, and its logged counts fall. |
| Insertion.AscendingJobsLogOnce | nandcombinator.cc:785-821 | With a join after each gate count, no key is logged twice. |
| Insertion.SubmittedLoggedOnce | nandcombinator.cc:373-439 | Every submitted key ends with exactly one line, with the least count submitted. |
| Dispatch.EveryRunIsSafe | nandcombinator.cc:682-769 | In every interleaving of ticket taking, file advancing and cataloguing, tickets are unique and no record is lost. |
| Dispatch.ExactlyOnce | nandcombinator.cc:682-769 | No record is catalogued twice; if a worker started, no step is a stop by the completion test, and all workers have left, every record of every file has been. |
| Dispatch.WhyGone | nandcombinator.cc:700-764 | A worker only leaves when it finds all files exhausted or, at the end of a group, when the completion test finds nothing missing. |
| Dispatch.StepsGetNearer | nandcombinator.cc:682-769 | Every step that is not held up by the lock lowers a measure, so the work ends. |
| Dispatch.CanFinish | nandcombinator.cc:682-769 | From every reachable state the work can be brought to its end without stops. |
| Optimality.OptimumIsWanted | nandcombinator.cc:521-596 | The record of an acceptable minimum network submits its functions. |
| Optimality.SameKeySameFunctions | nandcombinator.cc:327-370 | Equal search keys mean equal sets of functions; an ordered set of functions has one search key. |
| Optimality.ClearRowsAreOrdered | nandcombinator.cc:282 | Functions that are 0 in every 32nd row are ordered, and up to 4 inputs all functions are. |
| CatalogueRun.DoneIsChecked | nandcombinator.cc:373-439 | After the joins, exactly the submissions that passed the first check point are done: none is lost between the two critical sections. |
| CatalogueRun.RunIsHonest | nandcombinator.cc:598-821 | In every run, every submission comes from a network with that many gates and those functions. |
| CatalogueRun.RunIsComplete | nandcombinator.cc:598-769 | In a job that was not interrupted, everything that any record offers has been submitted. |
| CatalogueRun.CatalogueIsOptimal | nandcombinator.cc:785-821 | In every run whose job for the needed gate count was not interrupted, a cataloguable set of functions is logged exactly once under a key of its own, with the least number of gates; if the comparison orders the functions, they have no other key. |
| CatalogueRun.LoggedIsAchievable | nandcombinator.cc:598-821 | Even in an interrupted run every count dealt with is that of a network for the functions of its key. |
| Solver.Solver.Solve | backend/solver.php:20-55 | Reads the header, fetches the row, and decodes the sources and outputs that were encoded. |
| Solver.DecodeLine | backend/solver.php:43-54 | Decoding a logged line gives gates that deliver the columns of its key. |
| Solver.LoggedLineIsSound | nandcombinator.cc:500-518 | Every line that is logged is a sound database row: its gates compute the table that its key encodes. |
| Parsing.ParsesFormula | backend/parser.php:448-499 | The shunting yard turns the tokens of every formula into its postfix list, by the precedences and the associativity. |
| Parsing.ParsesWellFormed | backend/parser.php:448-499 | Every well-formed token list is the print of a formula, and is parsed as that formula. |
| Parsing.UnclosedAreCounted | backend/parser.php:487-497 | The parentheses left over are those opened and never closed. |
| Precedences.TwoOperators | backend/parser.php:426-467 | For all pairs of binary operators: x op1 y op2 z applies op2 first exactly if op2 stands after op1 in IMP, OR, NOR, XOR, XNOR, AND, NAND, and otherwise op1. |
| Precedences.NotTakesItsAtom | backend/parser.php:426-467 | NOT takes only its atom, before and behind every binary operator, and may be repeated. |
| Precedences.ParenthesesOverrule | backend/parser.php:470-477 | Parentheses overrule the order, for all pairs of operators and on both sides. |
| FrontEnd.Parser.DoParse | backend/parser.php:448-499 | The loop computes that list, numbers new variables in order of appearance, and counts unclosed parentheses. |
| FrontEnd.Parser.ParseOne | backend/parser.php:89-134 | Stores the list and the interpretation, with the errors of the rendering. |
| Phrases.PrintThenParse | backend/parser.php:93-131 | Rendering any postfix list and parsing the text again gives back the list. |
| Phrases.ErrorsAreExact | backend/parser.php:93-134 | The rendering of a list has no error exactly if it is the postfix list of one formula. |
| Phrases.FormulasArePostfix | backend/parser.php:93-129 | ParseOne finds no error in the list of a formula. |
| Evaluating.EvaluatesFormula | backend/parser.php:372-404 | On a 64-bit stack word, a list whose height stays within 64 evaluates to the formula's value. |
| Evaluating.DepthLimitIsExact | backend/parser.php:379-398 | Lists up to a given height are all evaluated correctly exactly if the height is at most 64. |
| FrontEnd.Parser.Evaluate | backend/parser.php:139-148 | The truth table has, in every row and for every output, the value of the list. |
| Analyzer.FindTrivial | backend/parser.php:168-193 | The mask arithmetic finds exactly the constant outputs and the copies of variables. |
| Analyzer.FindUnused | backend/parser.php:195-220 | Comparing the two lists of masked rows finds exactly the variables that no remaining output depends on. |
| Analyzer.SortOutputs | backend/parser.php:236-246 | A comparison sort whose comparison records aliases yields a sorted order and aliases for all equal neighbours. |
| Analyzer.AnalyzeTable | backend/parser.php:157-302 | All of Analyze yields the specified normal form. |
| TableRows.RowAtPosition | backend/parser.php:255-265 | The rows that are kept are one for each setting of the kept variables, in order. |
| Comparator.ComparatorIsExact | backend/parser.php:237-246 | The comparison tells different outputs apart exactly if no variable from number 5 on is discarded below a kept one. |
| Analysis.AnalyzeKeepsMeaning | backend/parser.php:157-302 | Without such a gap, every output is found again in every row, through constants, copies, aliases and the compressed table. |
| Analysis.AnalyzeIsExact | backend/parser.php:157-302 | Analyze is right for all tables with the discarded variables exactly if there is no gap. |
| Analysis.SixVariablesAreSafe | backend/parser.php:157-302 | Up to 6 variables it is always right. |
| Analysis.SeventhVariableBreaks | backend/parser.php:237-246 | With 7 variables and number 5 discarded it is not. |
| FrontEnd.Parser.LookUp | backend/parser.php:304-314 | The key encodes the counts and the compressed columns. |
| FrontEnd.Parser.Solve | backend/parser.php:316-370 | The gate count is that of the row found, or 0; the logic map has the sources of exactly these gates and of every output, except that outputs that need gates are left out without a network. |
| Assignments.ProperNeedsGates | backend/parser.php:168-193 | The columns that are neither constant nor copies belong exactly to the formulas that are neither constant nor the value of a variable. |
| Analysis.ComputedIffProper | backend/parser.php:157-302 | Without a gap, exactly the outputs with such a column get a number in the compressed table, aliases included. |
| EndToEnd.LogicMapIsCorrect | backend/parser.php:316-370 | Without a gap, whether or not a network is stored: an output is left out exactly if its formula needs gates and none is stored; otherwise it has the value of its formula for every assignment, and a gate feeds it exactly if the formula needs gates. |
| EndToEnd.Answer | backend/parser.php:57-370 | So it is for all outputs of a whole query against a sound database; the gate count is that of the row found, and the map has no other entries. |
| KeyAgreement.AnalyzeCompares | backend/parser.php:237-246 | Without a gap, Analyze orders columns by the highest row in which they differ. |
| KeyAgreement.ListsAgreeIffClose | nandcombinator.cc:271-291 | The catalogue lists every arrangement of the functions as the front end does exactly if no two tables differ by 2^31 or more in the highest word that differs. |
| KeyAgreement.KeysAgree | backend/parser.php:304-314 | Under that condition both programs write the same key for the same functions. |
| KeyAgreement.KeysAgreeOnlyIfClose | nandcombinator.cc:327-343 | Otherwise some arrangement of the functions has another key than the query. |
| QueryOptimality.QueryIsCataloguable | backend/parser.php:157-302 | The front end only asks for functions that the catalogue is about. |
| QueryOptimality.QueryFindsOptimum | backend/parser.php:316-330 | After an uninterrupted run the functions of a query are logged exactly once with the least number of gates, and every line about them has the key of the query if no two tables are too far apart. |
| QueryOptimality.FourInputsAreClose | nandcombinator.cc:282 | Up to 4 kept variables no two tables are. |
| Endian.Wn | radixtree/endian.hh:156-170 | Writes exactly the low bytes of the value, in all eight widths, and nothing else. |
| Endian.RnIsValue | radixtree/endian.hh:96-112 | Reads back the number that the bytes spell, in all eight widths. |
| Endian.WidthIsExact | radixtree/templates.hh:122-139 | The calculated width is the least that holds the value. |
| Endian.LinkReadsBack | radixtree/endian.hh:96-170 | A link written in that width or a wider one is read back. |
| VectorLayout.AllocCovers | radixtree/vectorstorage.cc:27-55 | The rounded-up 16-bit allocation covers a length exactly up to 65532. |
| VectorLayout.AllocIsLeast | radixtree/vectorstorage.cc:27 | Up to there it is the least multiple of 4 that covers the length. |
| VectorStorage.VectorStorage.Ensure | radixtree/storage.hh:26-39 | The block grows to the least number of whole megabytes, keeps its bytes, and never shrinks. |
| VectorStorage.VectorStorage.Place | radixtree/vectorstorage.cc:25-56 | A vector that outgrows its range gets a hole of exactly the size it needs, its own old range included, which is used up; the end of the block exactly if there is none. No two ranges or holes overlap, and together they fill the block. |
| VectorStorage.VectorStorage.Reassign | radixtree/vectorstorage.cc:16-64 | Writing the relay buffer back stores its bytes, moves the vector only so, and changes no other vector. |
| VectorStorage.VectorStorage.Replace | radixtree/vectorstorage.cc:66-102 | Splices the relay buffer in all three cases, and changes no other vector. |
| VectorStorage.VectorStorage.Create | radixtree/vectorstorage.cc:104-112 | Adds an empty vector with the next number. |
| VectorStorage.VectorStorage.Read | radixtree/vectorstorage.cc:123-137 | Shows the vector and keeps the contents of all, whatever was in the buffer. |
| VectorStorage.VectorStorage.WriteThrough | radixtree/RadixTree-Vector.hh:113-116 | Writing through the pointer changes this vector only, whether the buffer is borrowed or owned. |
| VectorStorage.VectorStorage.Free | radixtree/vectorstorage.cc:139-143 | Wipes everything exactly when the last vector goes, and otherwise keeps all contents. |
| RadixBytes.LowerBoundSearch | radixtree/RadixTree-Vector.hh:150-163 | The binary search stops at the first entry that is not below the token. |
| RadixBytes.Rebuild | radixtree/RadixTree-Vector.hh:323-366 | Widening a node rewrites all its entries in the new width with the new one in its place. |
| RadixInsert.AddedIsWellFormed | radixtree/RadixTree-Vector.hh:250-371 | Adding a key to a node keeps it well-formed: sorted tokens, links that fit, no shared nodes. |
| RadixMap.KeyAdded | radixtree/RadixTree-Vector.hh:250-371 | If the vectors are as AddBack leaves them, the tree stands for the map with the new key. |
| RadixStates.OtherTreeIsKept | radixtree/RadixTree-Vector.hh:102-123 | An operation on one tree leaves every other tree in the storage alone. |
| RadixStates.OtherTreeSurvives | radixtree/RadixTree-Vector.hh:218-248 | So does clearing a tree. |
| RadixTree.RadixTree.AddBack | radixtree/RadixTree-Vector.hh:250-371 | Writes the bytes of the enlarged node and of a chain of new nodes for the rest of the key. |
| RadixTree.RadixTree.Process | radixtree/RadixTree-Vector.hh:178-208 | Ends at the key's payload if the map has the key; otherwise adds it, if that is wanted. |
| RadixTree.RadixTree.AddOrFindOrUpdate | radixtree/RadixTree-Vector.hh:100-123 | All template variants: the tree stands for the map with the key added or overwritten, and the result and the data are those of the map. |
| RadixTree.RadixTree.Find | radixtree/RadixTree-Vector.hh:72-77 | Gives the map's payload and changes nothing. |
| RadixTree.RadixTree.Ensure | radixtree/RadixTree-Vector.hh:79-84 | Puts the key into the map. |
| RadixTree.RadixTree.Add | radixtree/RadixTree-Vector.hh:86-91 | Puts a key that is missing, and leaves the caller's data alone. |
| RadixTree.RadixTree.AddOrFind | radixtree/RadixTree-Vector.hh:93-98 | Puts a key that is missing, or gives its payload. |
| RadixTree.RadixTree.Clear | radixtree/RadixTree-Vector.hh:57-62 | Frees exactly the tree's vectors; the tree stands for the empty map. |
| RadixTree.RadixTree.Destroy | radixtree/RadixTree-Vector.hh:214-248 | The destructor frees exactly the tree's vectors. |
| BlockAllocator.MemBlock.Allocate | radixtree/FSBAllocator.hh:142-166 | Hands out the unit taken back last, or a new one if none is free; it is not live, and no live unit changes. |
| BlockAllocator.MemBlock.Deallocate | radixtree/FSBAllocator.hh:168-175 | Takes back exactly this unit, which is the next to be handed out, and the whole block with the last one. |
| BlockAllocator.ElemAllocator.Allocate | radixtree/FSBAllocator.hh:217-237 | Hands out the next unit of the block that got room last, and adds a block exactly if none has room; the unit was not live, and all live units keep their contents. |
| BlockAllocator.ElemAllocator.Deallocate | radixtree/FSBAllocator.hh:239-254 | Takes back exactly the unit pointed to, or does nothing for null; a block that was full has room again, and all other live units keep their contents. |

## Findings

Properties that the code does not have, each with an input and with the exact condition under
which it does.

* **Keys are not canonical from 5 inputs on.** `comp = a[w] - b[w]` wraps, so three tables can go
  round in a circle. For every number of inputs from 5 on, the network NAND(x3, x4),
  NAND(x0, x1), NAND(x4, g0), NAND(x2, g2) (with an inverter for each further input) is written
  by the generator and its outputs go round (`CircularKeys.CircleGoesRound`). A set of functions
  has one sorted list exactly if the comparison orders it (`CanonicalKeys.CanonicalIffOrdered`),
  as it does when all functions are 0 in every 32nd row, and for all sets exactly up to 4 inputs
  (`CircularKeys.CanonicalIffFourInputs`).
* **The front end can ask for a key that was not logged.** It sorts without the wrap. The keys
  agree for all arrangements exactly if no two tables differ by 2^31 or more in the highest word
  that differs (`KeyAgreement.ListsAgreeIffClose`, `KeysAgree`, `KeysAgreeOnlyIfClose`);
  `CircularKeys.FiveInputsAreMissed` is a logged network with 5 inputs that is never found.
  The optimality of the logged count does not depend on this: `CatalogueRun.CatalogueIsOptimal`
  has no such condition.
* **Analyze confuses outputs.** It compares the words 0 to count - 1, but when a variable from
  number 5 on is discarded below a kept one the used words are not contiguous, and different
  outputs become aliases. The condition is exact (`Analysis.AnalyzeIsExact`); 7 variables are
  enough (`SeventhVariableBreaks`), 6 are not (`SixVariablesAreSafe`).
* **The evaluation stack has 64 bits.** Lists that need more than 64 places can be evaluated
  wrongly, shorter ones never (`Evaluating.DepthLimitIsExact`).
* **The PHP bit cache has 64 bits and a sign.** A 59-bit field put behind 5 pending bits makes it
  negative, and the right shift then leaves ones behind. All fields survive the round trip
  exactly if none is wider than 58 bits (`PhpCodec.RoundTripIffShort`); the programs only use
  widths up to 6.
* **A vector longer than 65532 bytes gets no allocation**, because its rounded-up size does not
  fit 16 bits (`VectorLayout.AllocCovers`); the radix tree never makes one.
* **Documentation.** README.md of the repository says that gate inputs take 5 bits; both programs
  use 6 (nandcombinator.cc:511, backend/solver.php:46). The keys list the truth table output by
  output, not row by row. The model follows the code.

## Left out

- Parser.Parse: regular expressions (the split at commas, the `name :=` form, the token
  pattern) and the textual replacement of `name =` macros; phrases are token lists.
- FrontEnd.Parser.DoParse: a closing parenthesis without an opening one, on which the program
  does not terminate normally; the token lists are those on which every step is defined.
- FrontEnd.Parser.ParseOne: reports the errors of the rendering only, because the code overwrites
  the count of unclosed parentheses that DoParse has added.
- EndToEnd.Answer: requires fewer than 32 variables and 32 outputs, the room of the 5-bit counts
  in the key, formulas whose evaluation fits the 64-bit stack, and phrases with different names
  (of two with one name the program keeps the later one in the map).
- Analysis.AnalyzeIsExact: row masks are sets, so it also speaks of more than 64 outputs, which a
  row integer of the program cannot hold.
- PhpCodec.Base64Decoder.Get: shifts by 63 and more and the conversion of overflowing sums to
  floating point; they begin beyond the width at which the round trip fails already.
- Combinations.Binomial: whole numbers; the gamma function and the completion test that compares
  sizes as floating-point numbers are not modelled: its answers are arguments, the set of the
  points (output count and list) at which it says full, and a flag at the end of each group.
- Dispatch.ExactlyOnce: tickets are groups of 128 records, as the program fixes; the reading of
  the mapped files is not modelled.
- CatalogueRun.CatalogueIsOptimal: one number of inputs and one number of outputs at a time, as
  the knowledge is kept; files are those of one run of the generator.
- The assertion `num_outputs < global_max_outputs` is modelled as gates being fewer than the
  largest output count.
- GateBuilder: the parallel schedule is any order of the iterations; progress printing, file
  buffering and the choice of sizes in `main` are left out. Masks of gates are sets.
- Analyzer.SortOutputs: usort is an insertion sort here; the lemmas hold for every outcome that a
  comparison sort can have.
- Insertion: the knowledge is the array of sets that the program is compiled with; the other
  containers, the string class and the sparse hash sets behind it are not modelled.
- VectorStorage: memory blocks are sequences, so that moving a block by realloc is not modelled; a
  borrowed buffer is tied to its range by an invariant. One storage object stands for the static
  one.
- RadixTree: keys of at least one byte, 8-bit tokens, payloads that fit a node; the case
  `RealSize == 0`, which does nothing, and the dump functions are left out.
- BlockAllocator: the locks, the rebinding of types, and the second allocator, FSBAllocator2.
- Database access is a map from keys to rows; `WOLFRAM_ALPHA` is off, as in the source.
- The drawing of circuits, the caching of pages and the command-line front end.
