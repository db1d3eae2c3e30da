# Fibonacci explorer: a verified model of its algorithms

The repository is a React application that shows the Fibonacci numbers in seven ways. This project models the integer and string algorithms behind those views and proves properties of them in Dafny. The React state, rendering and animation are not modelled.

- **The sequence engine** (`src/utils/fibonacci.js`). `generateFibonacciSequence` produces the terms. Its JavaScript Numbers are exact up to 2^53 - 1; after that it switches to BigInt and converts the terms it already has. Each term is modelled as its exact integer value, tagged with its representation. `closestFibonacci` is modelled as well (module `SequenceEngine`).
- **The Fibonacci heap** (`src/utils/fibonacciAlgorithms.js`):
  - Module `FibHeap` models the node objects as an arena. Node i is entry i of a sequence, every pointer is an index, and -1 stands for null. Each operation is a function on the whole heap that makes the writes in the source's order, so aliasing between the nodes involved is exact.
  - Class `FibHeapInPlace.FibonacciHeap` updates the same fields in place. Each of its methods is proved to leave exactly the state the matching function describes.
  - `FibHeapScenarios` works through concrete runs of insert and extractMin.
  - `FibHeapFixed` is a corrected consolidate that copies the root list before linking (see "## Findings").
  - `FibNumber` holds the file's `fibonacciNumber` helper.
- **The music mapping** (`src/utils/fibonacciMusic.js`). Seeded, optionally reduced Fibonacci sequences are mapped onto notes, octaves, rhythms and chords, and a composition is flattened into MIDI-like events (module `Music`).
- **The search visualiser** (`src/components/FibonacciSearchVisualizer.jsx`). Binary search and Fibonacci search with their step logs. An array read outside the bounds is modelled explicitly as JavaScript's `undefined` (module `Search`).
- **The coding explorer** (`src/components/FibonacciCodingExplorer.jsx`). The greedy Zeckendorf scan, the Fibonacci-code encoder and the decoder that reads up to the first `"11"`, per character and per text (module `Coding`).
- **The Zeckendorf clock** (`src/components/FibonacciClock.jsx`). The table, the decomposition of hours, minutes and seconds into lit plates, the 12/24-hour conversion, the display check and the `HH:MM:SS` text (module `Clock`).
- **The digit grouping** (`src/components/SequenceViewer.jsx`). The BigInt branches of `formatFullNumber` and `formatNumberForDisplay` (module `Digits`).

Module `FibMath` holds what these programs share:
- the reference definition `Fib` (F(0) = 0, F(1) = 1) and its growth;
- the concrete values the programs depend on;
- integer sums;
- the greedy decomposition over a table of consecutive Fibonacci numbers, with its Zeckendorf properties. The clock and the coding explorer both run that scan.

## Model

| member | source | states |
|---|---|---|
| FibMath.FibValues | src/components/FibonacciSearchVisualizer.jsx:60-66 | F(20) = 6765 and F(21) = 10946 (the sizes the 21-entry search table and the 20-entry coding table cover), and F(9) to F(12) for the clock |
| FibMath.FibLargeValues | src/utils/fibonacci.js:21-33 | F(78) and F(79) lie on either side of 2^53 - 1; F(87), F(88) and F(99) fix the digit counts the display depends on |
| FibMath.FibMonotone | src/utils/fibonacci.js:25-47 | i <= j implies F(i) <= F(j) |
| FibMath.GreedyScan | src/components/FibonacciClock.jsx:22-38 | the downward scan that takes every entry that still fits, then reverses, returns the values at the greedy index list |
| FibMath.GreedySum | src/components/FibonacciClock.jsx:30-35 | the entries the scan takes add up to n when n lies below the next Fibonacci number |
| FibMath.GreedyNonConsecutive | src/components/FibonacciCodingExplorer.jsx:39-44 | the scan never takes two neighbouring entries of a Fibonacci table |
| FibMath.GreedyAscending | src/components/FibonacciCodingExplorer.jsx:39-46 | after the reversal the picked indices strictly ascend |
| FibMath.GreedyZeckendorf | src/components/FibonacciCodingExplorer.jsx:33-46 | the scan's result is a Zeckendorf representation: table values, strictly ascending, summing to n, never two neighbouring entries |
| SequenceEngine.SafeThreshold | src/utils/fibonacci.js:29-33 | F(i) exceeds Number.MAX_SAFE_INTEGER exactly when i >= 79 |
| SequenceEngine.GenerateSequence | src/utils/fibonacci.js:10-50 | [] for n <= 0, [0] for 1, [0, 1] for 2; otherwise exactly n terms with term i = F(i); the terms are non-negative and non-decreasing; the list is all Number or all BigInt, and it is BigInt exactly when n >= 80 |
| SequenceEngine.NextTerm | src/utils/fibonacci.js:26-46 | one round of the loop appends the next term; the BigInt flag turns on when the list reaches 80 terms and never turns off; the list stays homogeneous |
| SequenceEngine.NextValue | src/utils/fibonacci.js:26-30 | the sum of the two last terms is the next Fibonacci number |
| SequenceEngine.ConvertToBigInt | src/utils/fibonacci.js:35-37 | the conversion tags every earlier term as BigInt and keeps its value |
| SequenceEngine.ConvertKeepsTerms | src/utils/fibonacci.js:34-39 | converted terms are still F(0), F(1), ... |
| SequenceEngine.TermsOrdered | src/utils/fibonacci.js:25-47 | the terms are non-negative and non-decreasing |
| SequenceEngine.FirstTenTerms | src/utils/fibonacci.test.js:15-17 | the first ten terms are 0, 1, 1, 2, 3, 5, 8, 13, 21, 34 |
| SequenceEngine.ClosestFibonacci | src/utils/fibonacci.js:162-183 | 0 for n <= 0 and 1 for n = 1; for n >= 2 the nearer of F(k) < n <= F(k + 1), ties going to F(k); always a Fibonacci number, as near n as any Fibonacci number, and n itself when n is one |
| SequenceEngine.Bracket | src/utils/fibonacci.js:170-176 | the walk stops at consecutive terms b = F(k) < n <= c = F(k + 1) |
| SequenceEngine.NearestOfBracket | src/utils/fibonacci.js:178-182 | the nearer end of the bracket is at least as near n as every Fibonacci number |
| FibNumber.FibonacciNumber | src/utils/fibonacciAlgorithms.js:67-76 | the loop returns 1 for every n <= 1, negatives included, and F(n + 1) above |
| FibNumber.FibonacciNumberRecurrence | src/utils/fibonacciAlgorithms.js:71-75 | above 1 each value is the sum of the two before it |
| FibNumber.FibonacciNumberMonotone | src/utils/fibonacciAlgorithms.js:67-76 | every value is at least 1 and the values never decrease in n |
| FibNumber.FibonacciNumberSafeRange | src/utils/fibonacciAlgorithms.js:67-76 | every value up to n = 77 is below 2^53, so the source's Number sums are exact there, and the value for n = 78 is the first above it |
| FibHeap.SpliceAfter | src/utils/fibonacciAlgorithms.js:168-171 | the four writes of addToRootList, in order, keep every pointer inside the arena (what they change is stated by FibHeap.SpliceAfterFrame and FibHeap.SpliceAfterRing) |
| FibHeap.Unsplice | src/utils/fibonacciAlgorithms.js:175-178 | the two writes of removeFromRootList keep every pointer inside the arena (what they change is stated by FibHeap.UnspliceFrame) |
| FibHeap.Insert | src/utils/fibonacciAlgorithms.js:104-125 | insert allocates one node, returns it, and keeps the arena closed (its effect is stated by FibHeap.InsertProperties) |
| FibHeap.InsertProperties | src/utils/fibonacciAlgorithms.js:104-125 | n grows by one and one insert entry with the new n is logged; the node is degree 0, unmarked, parentless and childless, alone in an empty heap or spliced right of min; min moves only for a strictly smaller key; other nodes change only left and right |
| FibHeap.InsertMin | src/utils/fibonacciAlgorithms.js:107-114 | min becomes the new node exactly when the heap was empty or the key is strictly smaller than min's |
| FibHeap.InsertLinked | src/utils/fibonacciAlgorithms.js:104-114 | insert keeps every ring doubly linked (right's left and left's right point back) |
| FibHeap.SpliceAfterFrame | src/utils/fibonacciAlgorithms.js:168-171 | the splice changes no key, value, degree, mark, parent or child, and touches only the node, min and min's old right neighbour |
| FibHeap.SpliceAfterRing | src/utils/fibonacciAlgorithms.js:168-171 | when the node is neither m nor m's right neighbour, it ends up between them |
| FibHeap.UnspliceFrame | src/utils/fibonacciAlgorithms.js:175-178 | the unsplice changes no payload and touches only the node's two neighbours |
| FibHeap.AddAloneLinked | src/utils/fibonacciAlgorithms.js:164-173 | adding a lone node to a doubly linked heap keeps every ring doubly linked |
| FibHeap.SpliceLinked | src/utils/fibonacciAlgorithms.js:168-171 | splicing a node that no other node points at right of m makes every ring doubly linked again |
| FibHeap.UnspliceLinked | src/utils/fibonacciAlgorithms.js:175-178 | unlinking a node joins its two neighbours, leaves no other node pointing at it, keeps every other node doubly linked, and leaves the node's own pointers naming its old neighbours |
| FibHeap.RemoveLinked | src/utils/fibonacciAlgorithms.js:175-178 | removeFromRootList joins the node's neighbours, leaves no node pointing at it and keeps every other node doubly linked |
| FibHeap.HeapLink | src/utils/fibonacciAlgorithms.js:216-232 | heapLink keeps the arena closed and changes no field of the heap but its nodes (its effect on them is stated by the HeapLink lemmas) |
| FibHeap.HeapLinkFields | src/utils/fibonacciAlgorithms.js:216-232 | y's parent is x and y is unmarked; x's degree grows by one; x's child is y when x had none, with y then alone in its ring, and otherwise y sits right of x's old child |
| FibHeap.HeapLinkPayloads | src/utils/fibonacciAlgorithms.js:216-232 | no node other than x and y changes degree, mark, parent or child |
| FibHeap.HeapLinkPointers | src/utils/fibonacciAlgorithms.js:216-232 | left and right change only at y, y's old neighbours, x's child and that child's right neighbour |
| FibHeap.HeapLinkKeys | src/utils/fibonacciAlgorithms.js:216-232 | no node's key or value changes |
| FibHeap.HeapLinkLinked | src/utils/fibonacciAlgorithms.js:216-232 | when y is not already x's child, heapLink keeps every ring doubly linked, whether or not y is x itself |
| FibHeap.LinkLoop | src/utils/fibonacciAlgorithms.js:190-198 | the inner loop of consolidate keeps the arena closed and the slot array well formed, its degree only grows, it only empties slots of A, and the node it carries out is x or a node A held |
| FibHeap.LinkLoopStep | src/utils/fibonacciAlgorithms.js:191-197 | one round swaps so that the smaller key wins, links the loser under it, clears the slot and moves to the next degree |
| FibHeap.LinkLoopKeys | src/utils/fibonacciAlgorithms.js:190-198 | the inner loop changes no key or value |
| FibHeap.WalkKeys | src/utils/fibonacciAlgorithms.js:186-202 | the root walk of consolidate changes no key or value |
| FibHeap.ScanMin | src/utils/fibonacciAlgorithms.js:204-213 | the scan of A yields null or an index of the arena |
| FibHeap.ScanMinLeast | src/utils/fibonacciAlgorithms.js:204-213 | the scan yields null exactly when every slot is empty, and otherwise a slot whose key is at most every filled slot's |
| FibHeap.Consolidate | src/utils/fibonacciAlgorithms.js:180-214 | consolidate keeps the arena closed and leaves n and the log alone |
| FibHeap.ConsolidateKeys | src/utils/fibonacciAlgorithms.js:180-214 | consolidate changes no key or value |
| FibHeap.ChildWalk | src/utils/fibonacciAlgorithms.js:131-139 | moving the children to the root list keeps the arena closed, leaves min at z and n and the log alone, and changes no key or value |
| FibHeap.ExtractMin | src/utils/fibonacciAlgorithms.js:127-162 | extractMin returns the old min and keeps the arena closed |
| FibHeap.AfterRemoval | src/utils/fibonacciAlgorithms.js:144-158 | after z leaves the root list it returns z, keeping the arena closed |
| FibHeap.ExtractMinEmpty | src/utils/fibonacciAlgorithms.js:127-129 | on an empty heap extractMin returns null and changes nothing |
| FibHeap.ExtractMinLog | src/utils/fibonacciAlgorithms.js:151-158 | a successful extractMin returns min, n drops by one and exactly one entry is logged with min's key and the new n; it throws only when n is below 1 and then logs nothing |
| FibHeap.InsertAll | src/components/AlgorithmViewer.jsx:63-75 | a run of inserts on a new heap has one node per key |
| FibHeap.InsertLog | src/components/AlgorithmViewer.jsx:63-75 | the log of a run of inserts has entry i = insert of key i with total i + 1 |
| FibHeap.InsertAllProperties | src/utils/fibonacciAlgorithms.js:104-125 | after a run of inserts on a new heap the rings are doubly linked, n is the number of keys, the log has one insert entry per key, and node i is a fresh root with key i |
| FibHeap.InsertAllMin | src/utils/fibonacciAlgorithms.js:107-114 | after a run of inserts min is null exactly for no keys, and otherwise the first node of least key |
| FibHeap.FirstMinSnoc | src/utils/fibonacciAlgorithms.js:111-113 | a new key becomes the first least one exactly when it is strictly smaller |
| FibHeap.ExtractAfterInserts | src/components/AlgorithmViewer.jsx:63-80 | the first extractMin after a run of inserts returns the first node of least key, leaves n - 1 and logs it after the inserts |
| FibHeapScenarios.DrainInOrder | src/utils/fibonacciAlgorithms.js:104-214 | insert 5, 2, 8 and extractMin three times: the keys come out 2, 5, 8, n and min return to 0 and null, and the log holds the six entries with their totals |
| FibHeapScenarios.SelfLink | src/utils/fibonacciAlgorithms.js:183-202 | insert 1, 2 and extractMin: the remaining root is visited twice and linked under itself, so node 2 becomes its own parent and child, of degree 1 |
| FibHeapScenarios.ExtractSkipsRoot | src/utils/fibonacciAlgorithms.js:190-202 | insert 1, 2, 9, 5 and extractMin twice: the second call returns key 5 although key 2 is still in the heap, because the walk followed node 2's right pointer into a child ring |
| FibHeapFixed.RootList | src/utils/fibonacciAlgorithms.js:183-202 | the copied root list starts at the given node and holds only nodes of the arena |
| FibHeapFixed.LinkRoots | src/utils/fibonacciAlgorithms.js:187-199 | each copied root passes the inner loop and is stored into A; the arena stays closed and min, n and the log are untouched |
| FibHeapFixed.ConsolidateFixed | src/utils/fibonacciAlgorithms.js:180-214 | the corrected consolidate keeps the arena closed and leaves n and the log alone |
| FibHeapFixed.ExtractMinFixed | src/utils/fibonacciAlgorithms.js:127-162 | the corrected extractMin returns the old min, never throws while n >= 1, and lowers n by one when it returns |
| FibHeapFixed.AfterRemovalFixed | src/utils/fibonacciAlgorithms.js:144-158 | the rest of the corrected extractMin returns z whenever n >= 1 and lowers n by one |
| FibHeapFixed.LinkLoopCovers | src/utils/fibonacciAlgorithms.js:190-198 | each link keeps the smaller of its two keys, so a key bounded by a slot of A or by the carried node before the inner loop is still bounded after it |
| FibHeapFixed.VisitCovers | src/utils/fibonacciAlgorithms.js:187-200 | after one root's pass, A bounds that root and everything it bounded before |
| FibHeapFixed.VisitMembers | src/utils/fibonacciAlgorithms.js:187-200 | one root's pass keeps A's slots among the copied roots |
| FibHeapFixed.LinkRootsKeys | src/utils/fibonacciAlgorithms.js:187-199 | passing the copied roots changes no key or value |
| FibHeapFixed.LinkRootsKeepCover | src/utils/fibonacciAlgorithms.js:187-199 | a key A bounds stays bounded while the remaining roots are passed |
| FibHeapFixed.LinkRootsCoverRoot | src/utils/fibonacciAlgorithms.js:187-199 | every copied root ends up bounded by a slot of A |
| FibHeapFixed.LinkRootsMembers | src/utils/fibonacciAlgorithms.js:187-199 | every filled slot of A holds a copied root |
| FibHeapFixed.ConsolidateFixedLeast | src/utils/fibonacciAlgorithms.js:180-214 | the corrected consolidate changes no key and sets min to a copied root whose key is at most every copied root's |
| FibHeapFixed.AfterRemovalFixedLeast | src/utils/fibonacciAlgorithms.js:144-158 | once z has left a root list of several nodes, the corrected extraction returns z, keeps every key, and leaves as min a root of least key in the remaining root list |
| FibHeapFixed.FixedNoSelfLink | src/utils/fibonacciAlgorithms.js:183-202 | insert 1, 2 and the corrected extractMin: key 1 comes out and node 2 stays a lone root with no parent, no child and degree 0 |
| FibHeapFixed.FixedExtractsInOrder | src/utils/fibonacciAlgorithms.js:104-214 | insert 1, 2, 9, 5 and the corrected extractMin twice: the keys come out 1, then 2 |
| FibHeapInPlace.FibonacciHeap.constructor | src/utils/fibonacciAlgorithms.js:98-102 | a new heap has no nodes, min null, n = 0 and an empty log |
| FibHeapInPlace.FibonacciHeap.Insert | src/utils/fibonacciAlgorithms.js:104-125 | the fields after insert are those FibHeap.Insert gives, and the node returned is its node |
| FibHeapInPlace.FibonacciHeap.AddToRootList | src/utils/fibonacciAlgorithms.js:164-173 | the four in-place writes leave the heap FibHeap.AddToRootList describes |
| FibHeapInPlace.FibonacciHeap.RemoveFromRootList | src/utils/fibonacciAlgorithms.js:175-178 | the two in-place writes leave the heap FibHeap.RemoveFromRootList describes |
| FibHeapInPlace.FibonacciHeap.HeapLink | src/utils/fibonacciAlgorithms.js:216-232 | the in-place writes leave the heap FibHeap.HeapLink describes |
| FibHeapInPlace.FibonacciHeap.LinkDegrees | src/utils/fibonacciAlgorithms.js:190-198 | the while loop over A[degree] ends in the state, slots, winner and degree of FibHeap.LinkLoop |
| FibHeapInPlace.FibonacciHeap.LinkOnce | src/utils/fibonacciAlgorithms.js:191-197 | one round of that loop leaves the rest of the loop's result unchanged and raises the degree by one |
| FibHeapInPlace.FibonacciHeap.WalkRoots | src/utils/fibonacciAlgorithms.js:183-202 | the do-while with its visited set ends in the state and slots of FibHeap.Walk |
| FibHeapInPlace.FibonacciHeap.ScanSlots | src/utils/fibonacciAlgorithms.js:204-213 | the final scan changes only min, to FibHeap.ScanMin of the slots |
| FibHeapInPlace.FibonacciHeap.Consolidate | src/utils/fibonacciAlgorithms.js:180-214 | the method leaves the heap FibHeap.Consolidate describes |
| FibHeapInPlace.FibonacciHeap.MoveChildren | src/utils/fibonacciAlgorithms.js:131-139 | the do-while over z's children leaves the heap FibHeap.ChildWalk describes |
| FibHeapInPlace.FibonacciHeap.MoveChild | src/utils/fibonacciAlgorithms.js:133-138 | one child moved to the root list with its parent cleared; the walk either ends at its goal or continues with fewer moves left |
| FibHeapInPlace.FibonacciHeap.MoveToRoot | src/utils/fibonacciAlgorithms.js:135-136 | addToRootList then parent = null leave the heap FibHeap.MoveToRoot describes |
| FibHeapInPlace.FibonacciHeap.ExtractMin | src/utils/fibonacciAlgorithms.js:127-162 | the fields after extractMin are those FibHeap.ExtractMin gives; it reports the node returned, or that consolidate threw |
| FibHeapInPlace.FibonacciHeap.Finish | src/utils/fibonacciAlgorithms.js:144-158 | the rest of extractMin leaves the heap FibHeap.AfterRemoval describes |
| FibHeapInPlace.FibonacciHeap.GetOperations | src/utils/fibonacciAlgorithms.js:234-236 | getOperations returns the log |
| Music.JsRem | src/utils/fibonacciMusic.js:27 | JavaScript's %: the remainder takes the sign of the dividend, is smaller than the divisor in magnitude, and agrees with the Euclidean one for a non-negative dividend |
| Music.JsRemNegativeOne | src/utils/fibonacciMusic.js:28 | -1 % 12 is -1 in JavaScript, not 11 (indexOf's -1 for an unknown base note) |
| Music.NoteAt | src/utils/fibonacciMusic.js:13 | CHROMATIC_NOTES[k] is defined exactly for 0 <= k < 12 |
| Music.IndexOf | src/utils/fibonacciMusic.js:117 | indexOf returns -1 or an index holding the note |
| Music.IndexOfMissing | src/utils/fibonacciMusic.js:117 | indexOf returns -1 exactly for a name outside the twelve |
| Music.IndexOfNoteAt | src/utils/fibonacciMusic.js:13 | the twelve names are distinct, so indexOf reads back any index |
| Music.GenerateSequence | src/utils/fibonacciMusic.js:47-64 | [] for length 0, [start1] for 1, [start1, start2] for 2 or a negative length, otherwise exactly length terms; term i >= 2 is the sum of the two before, reduced when the modulus is truthy; the seeds are never reduced |
| Music.UnseededIsFib | src/utils/fibonacciMusic.js:47-64 | seeds 1, 1 without a modulus give F(1), F(2), F(3), ... |
| Music.TermBounds | src/utils/fibonacciMusic.js:58-62 | with non-negative seeds every term is non-negative, and with a modulus every term after the seeds lies below it |
| Music.MelodyTermIsFib | src/utils/fibonacciMusic.js:23-27 | modulo 12 the 1, 13 seeds behave like 1, 1: the 13 is a seed, not a modulus |
| Music.ChordTermIsFib | src/utils/fibonacciMusic.js:94-97 | the 1, 1 sequence reduced modulo 7 has term i = F(i + 1) mod 7 |
| Music.RhythmOf | src/utils/fibonacciMusic.js:77-81 | the rhythm is always one of the five pattern values |
| Music.GetFibonacciRhythm | src/utils/fibonacciMusic.js:77-81 | the rhythm at position p is the pattern at F(p + 3) mod 5 |
| Music.RhythmPeriodic | src/utils/fibonacciMusic.js:77-81 | the rhythm repeats every 20 positions |
| Music.FibModFivePeriod | src/utils/fibonacciMusic.js:79-80 | F(n + 20) and F(n) agree modulo 5 |
| Music.MelodyStep | src/utils/fibonacciMusic.js:27 | the semitone step of note i lies in 0..11 |
| Music.StepOfTerm | src/utils/fibonacciMusic.js:27 | the step the loop reads off term i of the 1, 13 sequence is F(i + 1) mod 12 |
| Music.MelodyAt | src/utils/fibonacciMusic.js:24-41 | the melody has length notes (none for a negative length), note i being the note of step i |
| Music.GenerateFibonacciMelody | src/utils/fibonacciMusic.js:22-42 | the loop returns that melody when every note is defined, and otherwise the TypeError that getNoteFrequency raises on the first undefined note |
| Music.MelodyOutcome | src/utils/fibonacciMusic.js:22-42 | with a base note among the twelve the melody is always returned; with any other base note the call throws exactly when at least 12 notes are asked for, note 11 (F(12) = 144) being the first undefined one |
| Music.MelodyNotes | src/utils/fibonacciMusic.js:27-30 | for a base note among the twelve, note i is a chromatic name F(i + 1) mod 12 semitones above it, in the given octave or the next; for any other base note the name is undefined exactly when F(i + 1) is a multiple of 12, which is where getNoteFrequency throws |
| Music.MelodyOpening | src/utils/fibonacciMusic.js:22-41 | the default melody on C opens C#, C#, D, D# in octave 4 with durations 0.75, 1.0, 0.25, 1.0 |
| Music.GetNoteFromInterval | src/utils/fibonacciMusic.js:116-120 | for a known root the name interval semitones above it, wrapping round the octave; for an unknown root undefined exactly at interval 0 |
| Music.ChordNotes | src/utils/fibonacciMusic.js:125-141 | three notes: the root, then +4/+7 semitones for maj, +3/+7 for min, +3/+6 for dim |
| Music.ChordSpelling | src/utils/fibonacciMusic.js:125-141 | a chord on one of the twelve names is three defined names |
| Music.Degree | src/utils/fibonacciMusic.js:97 | each scale degree lies in 0..6 |
| Music.DegreeOfTerm | src/utils/fibonacciMusic.js:94-97 | the degree the loop reads off term i is F(i + 1) mod 7 |
| Music.ProgressionAt | src/utils/fibonacciMusic.js:96-108 | the progression has count chords (none for a negative count), chord i being the chord of degree i |
| Music.ChordStep | src/utils/fibonacciMusic.js:97-107 | one round of the loop pushes chord i |
| Music.GenerateFibonacciChords | src/utils/fibonacciMusic.js:89-111 | the loop builds exactly that progression |
| Music.ChordProperties | src/utils/fibonacciMusic.js:96-108 | in a known key chord i stands on degree F(i + 1) mod 7 with the degree's root and quality, three defined notes and twice a rhythm value; in any other key the root is undefined exactly on degree 0 |
| Music.ChordRoot | src/utils/fibonacciMusic.js:98-99 | the root of chord i is the degree's interval above the key |
| Music.IntervalAbove | src/utils/fibonacciMusic.js:116-120 | for a known key the note above it is read modulo 12 from its index |
| Music.ChordOpening | src/utils/fibonacciMusic.js:89-111 | the default progression in C opens D minor, D minor, E major, F minor |
| Music.Max | src/utils/fibonacciMusic.js:168 | Math.max: at least both arguments and one of them |
| Music.CreateFibonacciComposition | src/utils/fibonacciMusic.js:148-171 | the call throws exactly when its melody throws: never in one of the twelve keys, and in any other key exactly from melodyLength 12 on; otherwise the melody on the key in octave 4, the progression, and metadata whose length is the larger of the two list lengths |
| Music.PushChord | src/utils/fibonacciMusic.js:198-206 | the inner loop appends one chord event per note, all at the chord's start |
| Music.NoteEvents | src/utils/fibonacciMusic.js:198-206 | a chord gives one event per note |
| Music.CompositionToMIDI | src/utils/fibonacciMusic.js:176-216 | the events are the melody's then the chords', the duration is the chords' total only (the clock is reset at line 196), and the metadata is passed through |
| Music.MelodyEventAt | src/utils/fibonacciMusic.js:181-193 | melody event i is note i, timed at the sum of the durations of the notes before it |
| Music.MelodyEventCount | src/utils/fibonacciMusic.js:181-193 | one event per melody note |
| Music.ChordEventCount | src/utils/fibonacciMusic.js:197-209 | the chord events number the total of the chord notes |
| Music.TriadNoteCount | src/utils/fibonacciMusic.js:125-141 | a progression of triads holds three notes per chord |
| Music.GeneratedEvents | src/utils/fibonacciMusic.js:176-216 | for a generated composition: melody length plus three events per chord, the melody's first and in order at its running time, and the duration counts only the chords |
| Search.At | src/components/FibonacciSearchVisualizer.jsx:88 | arr[i] is defined exactly inside the array, and then is that element |
| Search.GenerateFibonacci | src/components/FibonacciSearchVisualizer.jsx:16-22 | n + 1 entries (at least 0, 1), entry i being F(i) |
| Search.GenerateArray | src/components/FibonacciSearchVisualizer.jsx:118-124 | size elements 1, 3, 5, ..., strictly increasing |
| Search.BinarySearch | src/components/FibonacciSearchVisualizer.jsx:25-55 | found means arr[index] is the target; on a sorted array not found means absent; step k records k + 1 comparisons and 0 <= left <= mid <= right < length; comparisons equals the number of steps, which is at most the length |
| Search.StartIndex | src/components/FibonacciSearchVisualizer.jsx:63-66 | the least m with fib[m] >= n, or 21 when the table runs out first |
| Search.StartIndexFits | src/components/FibonacciSearchVisualizer.jsx:60-66 | for n <= 6765 the start index is at most 20 and never 2 |
| Search.SmallestFibAtLeast | src/components/FibonacciSearchVisualizer.jsx:63-66 | the loop stops at that start index |
| Search.ProbeAt | src/components/FibonacciSearchVisualizer.jsx:73-95 | a probe either hits or reduces fibM by one or two |
| Search.RunLog | src/components/FibonacciSearchVisualizer.jsx:72-113 | the log numbers its probes one by one, fibM strictly decreases, and every probe index is -1 or inside the array |
| Search.RunSound | src/components/FibonacciSearchVisualizer.jsx:88-111 | a reported index is -1 or holds the target, and with the guard it is never -1 |
| Search.RunComplete | src/components/FibonacciSearchVisualizer.jsx:72-112 | while the window holds the target, the search finds it |
| Search.RunBelowFirst | src/components/FibonacciSearchVisualizer.jsx:73-95 | without the guard, a target below the first element is reported at index -1 exactly when the search starts from an even fibM |
| Search.FibonacciSearchWith | src/components/FibonacciSearchVisualizer.jsx:58-115 | the method's outcome and log are those of the run from the start index, and comparisons equals the number of steps |
| Search.ProbeLoop | src/components/FibonacciSearchVisualizer.jsx:72-114 | the probe loop and final check produce that run |
| Search.ProbeStep | src/components/FibonacciSearchVisualizer.jsx:73-95 | one round logs the probe and narrows the window as ProbeAt says |
| Search.TrackingStep | src/components/FibonacciSearchVisualizer.jsx:73-92 | on a sorted array holding the target, a probe stays inside the array and keeps the window around the target |
| Search.BelowFirstStep | src/components/FibonacciSearchVisualizer.jsx:73 | below the first element, probes from fibM >= 3 land inside the array on a larger element, and the probe from fibM = 2 at -1 |
| Search.FibonacciSearch | src/components/FibonacciSearchVisualizer.jsx:58-115 | comparisons equals the steps; fibM starts at the start index and strictly decreases; a found index is -1 or holds the target; on a sorted array of at most 6765 elements a present target is found; a target below the first element is reported at -1 exactly from an even start; a reported -1 means a non-empty array whose first element exceeds the target |
| Search.RunMinusOne | src/components/FibonacciSearchVisualizer.jsx:73-95 | without the guard, a run on a non-empty array reports -1 only from offset -1, at fibM = 2 or after a probe found arr[0] greater than the target |
| Search.SearchMinusOne | src/components/FibonacciSearchVisualizer.jsx:58-115 | the search as written reports -1 only when the target lies below the first element of a non-empty array; on a sorted array it reports -1 exactly when the target is below the first element and the start index is even |
| Search.SearchLog | src/components/FibonacciSearchVisualizer.jsx:72-113 | the log of every search from the start index is numbered and its fibM strictly decreases |
| Search.SearchSound | src/components/FibonacciSearchVisualizer.jsx:88-111 | the index every search reports is -1 or holds the target |
| Search.SearchComplete | src/components/FibonacciSearchVisualizer.jsx:72-112 | on a sorted array of at most 6765 elements every search finds a present target |
| Search.FibonacciSearchGuarded | src/components/FibonacciSearchVisualizer.jsx:58-115 | with the out-of-range probe read as greater: found means a real index holding the target, and on a sorted array of at most 6765 elements found exactly when present |
| Search.DefaultArrayMissingTarget | src/components/FibonacciSearchVisualizer.jsx:88-95 | on the default 50 odd numbers, the absent target 0 is reported found at index -1 |
| Search.DefaultArrayMissingTargetGuarded | src/components/FibonacciSearchVisualizer.jsx:88-95 | with the guard the absent target 0 is not found |
| Coding.FibRange | src/components/FibonacciCodingExplorer.jsx:24-30 | F(lo), ..., F(hi - 1) |
| Coding.CodingTable | src/components/FibonacciCodingExplorer.jsx:34 | generateFibonacci(20) is the table 1, 1, 2, ..., 6765 |
| Coding.TableFacts | src/components/FibonacciCodingExplorer.jsx:24-30 | the entries are positive, 1 twice, then strictly increasing |
| Coding.GenerateFibonacci | src/components/FibonacciCodingExplorer.jsx:24-30 | at least two entries, seeds 1, 1, entry i being F(i + 1) |
| Coding.Table20 | src/components/FibonacciCodingExplorer.jsx:34 | the table each helper regenerates is the coding table |
| Coding.FindZeckendorfRepresentation | src/components/FibonacciCodingExplorer.jsx:33-47 | the method returns the greedy scan over the coding table |
| Coding.ZeckendorfRepresentation | src/components/FibonacciCodingExplorer.jsx:33-46 | below 10946 the scan gives table terms that sum to n, ascend strictly and are never two neighbouring entries |
| Coding.EncodeCharacter | src/components/FibonacciCodingExplorer.jsx:50-79 | the result records the code, its terms, the bits and their length |
| Coding.EmitBody | src/components/FibonacciCodingExplorer.jsx:59-67 | the two loops emit, for each term, a '0' per differing table entry and then a '1' |
| Coding.GreedyIndices | src/components/FibonacciCodingExplorer.jsx:39-44 | below 10946 the picked indices are well spaced, never 0, and every one after the first is at least 3 |
| Coding.EncoderPositionsFacts | src/components/FibonacciCodingExplorer.jsx:59-67 | the encoder's '1' positions are the picked indices with the term 1 moved from index 1 to index 0, and they hold the terms |
| Coding.BodyBits | src/components/FibonacciCodingExplorer.jsx:59-67 | the emitted bits are '1' exactly at those positions, and the body ends at the last one |
| Coding.NoPairInBody | src/components/FibonacciCodingExplorer.jsx:59-67 | a body with no two neighbouring positions contains no "11" |
| Coding.EncodeShape | src/components/FibonacciCodingExplorer.jsx:59-77 | below 10946 the bits are the body then the terminator; '1' exactly at the term positions, never at index 1, never "11" in the body; its length is the last position plus one; code 0 is the terminator alone |
| Coding.Binary | src/components/FibonacciCodingExplorer.jsx:59-67 | the encoder writes only '0' and '1' |
| Coding.IndexOf11 | src/components/FibonacciCodingExplorer.jsx:88 | indexOf('11') is -1 exactly when there is no "11", and otherwise the first one |
| Coding.DecodeBits | src/components/FibonacciCodingExplorer.jsx:82-106 | a decoded character consumes between 2 bits and the whole input |
| Coding.DecodeBitsStops | src/components/FibonacciCodingExplorer.jsx:87-105 | the decoder returns null exactly when there is no "11"; otherwise it consumes up to and including the first "11" and reports those bits |
| Coding.DecodeCharacter | src/components/FibonacciCodingExplorer.jsx:82-106 | the method decodes as DecodeBits says |
| Coding.SumBits | src/components/FibonacciCodingExplorer.jsx:94-98 | the loop adds fib[j] for every '1' at index j, NaN once an index passes the table |
| Coding.ValueOfOnes | src/components/FibonacciCodingExplorer.jsx:94-98 | the '1' bits read back as the sum of their table entries |
| Coding.CharacterOfCode | src/components/FibonacciCodingExplorer.jsx:101 | String.fromCharCode reads a code unit back as itself |
| Coding.RoundTripZero | src/components/FibonacciCodingExplorer.jsx:70 | code 0 encodes to "11" and decodes back whatever follows |
| Coding.DecodeAfterCode | src/components/FibonacciCodingExplorer.jsx:88-105 | decoding a code and anything after it stops after the first terminator bit; the value is read over the body without its last '1' as written, or over the whole body when corrected |
| Coding.BodyValue | src/components/FibonacciCodingExplorer.jsx:94-98 | the whole body reads back as the code |
| Coding.RoundTripAsWritten | src/components/FibonacciCodingExplorer.jsx:70 | as written, every code 1 <= c < 10946 decodes to c less its largest term and consumes one bit fewer than written |
| Coding.LetterF | src/components/FibonacciCodingExplorer.jsx:50-105 | 'F' (70) encodes to 001000100111 and decodes to 15 in 11 bits |
| Coding.RoundTripFixed | src/components/FibonacciCodingExplorer.jsx:70 | with a single-'1' terminator and the decoder reading through the first '1' of the pair, every code 1 <= c < 10946 decodes back, whatever follows |
| Coding.EncodeText | src/components/FibonacciCodingExplorer.jsx:109-134 | the encoded text is the concatenation of the codes of its characters |
| Coding.DecodeText | src/components/FibonacciCodingExplorer.jsx:137-158 | the loop decodes, advances by each character's length and stops at the first null or at the end |
| Coding.DecodeAllStep | src/components/FibonacciCodingExplorer.jsx:142-153 | one round: a character decoded, then the rest decoded |
| Coding.TextRoundTripFixed | src/components/FibonacciCodingExplorer.jsx:311 | with the corrected code, decodeText(encodeText(text)) is the text for codes 1 to 10945 |
| Coding.TextLetterF | src/components/FibonacciCodingExplorer.jsx:311 | as written, the text "F" decodes to the single code 15, so the check fails |
| Clock.GenerateFibonacci | src/components/FibonacciClock.jsx:13-19 | at least two entries, seeds 1, 2, entry i being F(i + 2) |
| Clock.ClockTableIsFib | src/components/FibonacciClock.jsx:51 | the table 1, 2, 3, ..., 89 is F(2), ..., F(11) |
| Clock.LoadTable | src/components/FibonacciClock.jsx:49-52 | the mounted component holds the table 1, 2, 3, 5, ..., 89 |
| Clock.ToZeckendorf | src/components/FibonacciClock.jsx:22-38 | the method returns the greedy decomposition over the table, [] for 0 |
| Clock.ZeckendorfPlates | src/components/FibonacciClock.jsx:22-38 | with the table loaded, every value below 144 is shown by table entries that sum to it, ascend and never include two neighbouring entries; only 0 lights no plate |
| Clock.DecomposeSeven | src/components/FibonacciClock.jsx:321-324 | 7 = 2 + 5 |
| Clock.DecomposeTwelve | src/components/FibonacciClock.jsx:321-324 | 12 = 1 + 3 + 8 |
| Clock.ReadingHour | src/components/FibonacciClock.jsx:340-345 | 14 = 1 + 13 |
| Clock.ReadingMinutes | src/components/FibonacciClock.jsx:340-345 | 35 = 1 + 34 |
| Clock.DisplayHour | src/components/FibonacciClock.jsx:56 | the 24-hour value as is; in 12-hour mode a value in 1..12 congruent to the hour modulo 12 |
| Clock.TwelveHourMapping | src/components/FibonacciClock.jsx:56 | 12-hour mode maps 0 and 12 to 12, 13 to 1, 23 to 11, and every hour of the day into 1..12 |
| Clock.ActivePlates | src/components/FibonacciClock.jsx:55-65 | the effect computes the plates of the current time; without seconds the seconds plates are empty and sum to 0 |
| Clock.DisplayAlwaysCorrect | src/components/FibonacciClock.jsx:107-115 | with the table loaded, isDisplayCorrect holds at every time of day in both modes |
| Clock.DisplayBeforeLoad | src/components/FibonacciClock.jsx:107-115 | before the table loads, isDisplayCorrect holds exactly when every field shown is 0 |
| Clock.Pad2Value | src/components/FibonacciClock.jsx:95-96 | padStart(2, '0') gives two digits that read back as the value below 100 |
| Clock.FormatTraditionalTime | src/components/FibonacciClock.jsx:90-99 | HH:MM, or HH:MM:SS when seconds are shown, each field two digits reading back as the hour shown, the minutes and the seconds |
| Digits.DecimalString | src/components/SequenceViewer.jsx:45 | BigInt toString gives a non-empty digit string |
| Digits.DigitCount | src/components/SequenceViewer.jsx:56 | a number has more than k digits exactly when it is at least 10^k |
| Digits.FormatFullRemoveSpaces | src/components/SequenceViewer.jsx:45 | deleting the spaces gives back the digits |
| Digits.FormatFullShort | src/components/SequenceViewer.jsx:45 | up to three digits come back unchanged |
| Digits.FormatFullGroups | src/components/SequenceViewer.jsx:45 | the replacement equals grouping from the right: a first group of one to three digits, then groups of exactly three |
| Digits.FormatFullShape | src/components/SequenceViewer.jsx:45 | the result has one space per complete group after the first digit, and starts and ends with a digit |
| Digits.SpacedLength | src/components/SequenceViewer.jsx:45 | the number of spaces inserted from any position |
| Digits.FormatNumberForDisplay | src/components/SequenceViewer.jsx:53-65 | the plain digits exactly up to three digits; otherwise group = (len - 1) / 3 and a suffix exactly up to 18 digits |
| Digits.SuffixMissingFromIndex88 | src/components/SequenceViewer.jsx:57-64 | terms from index 88 on have no suffix, every earlier term with more than three digits has one |
| Digits.TermDigitsFrom88 | src/components/SequenceViewer.jsx:56 | F(k) has more than 18 digits for k >= 88 |
| Digits.TermDigitsBelow88 | src/components/SequenceViewer.jsx:56 | F(k) has at most 18 digits for k < 88 |
| Digits.FormatNumberForDisplayFixed | src/components/SequenceViewer.jsx:53-65 | with E added to the table, a suffix exactly up to 21 digits |
| Digits.FixedSuffixCoversSlider | src/components/SequenceViewer.jsx:57-64 | with the extended table every term the slider reaches (index below 100) has a suffix |

## Left out

- Floating point. Note frequencies, velocities and the scaled mantissa of the compact number form are left out. Rhythm and chord durations are exact `real`s.
- FibNumber.FibonacciNumber: the values are exact integers, where the source adds JavaScript Numbers. From n = 78 on (the first value above 2^53 is F(79), returned for n = 78) the source's sums round, at n = 78 to 14472334024676220 instead of 14472334024676221, and every later value can differ. fibonacciSearch raises n while fibonacciNumber(n) is below (b - a) / precision, up to maxIterations (100 by default) (src/utils/fibonacciAlgorithms.js:20-23). A ratio of 1e16 or more drives n to 78, while the default precision 1e-6 over an interval of width 1 stops n near 30. FibNumber.FibonacciNumberSafeRange proves that the values up to n = 77 are below 2^53.
- The React state, effects, timers, canvas drawing and animation around the helpers are left out. The current time is a parameter of the clock functions.
- Music.GenerateSequence: JavaScript's `null` modulus is modelled as 0. Both are falsy, so both mean "no reduction".
- Music.GenerateSequence: terms are exact integers, where JavaScript Numbers lose precision above 2^53. Unreduced terms pass 2^53 from F(79) for the seeds 1, 1 and from about term 73 for the melody's seeds 1, 13; from there the source's values can differ from the model's. The page asks for at most 16 notes and 8 chords (src/components/MusicGenerator.jsx:63-64).
- Music.GetFibonacciRhythm: the rhythm reads the exact F(p + 3) mod 5. From position 76 on, F(p + 3) exceeds 2^53 and the rounded JavaScript value can select another pattern (at position 76, 0.25 or 0.75 instead of 0.5). Only positions below 16 are asked for by the page.
- Music.RhythmPeriodic: the period of 20 holds for the exact rhythm; the program's rhythm follows it only below position 76.
- Music.ChordNotes: the chord quality is a datatype. An unknown type string, which the source would give only the root, is not modelled.
- Music.ChordOpening: only the root and the quality are stated; the spellings follow from Music.ChordSpelling.
- FibHeap: node objects are modelled as an arena of indices. Object identity is an index, and `new` appends to the arena.
- FibHeap: node values are `Option<string>`. FibHeap.InsertAll inserts with the default `null` value, whereas AlgorithmViewer.jsx passes the string `Node-<key>`; keys, links and the log do not depend on it.
- FibHeap.Operation: the description strings of the log are left out.
- FibHeap.FloorLog2: the slot count uses an exact integer log2 where the source uses `Math.floor(Math.log2(n))`. For n just below a large power of two (2^53 - 1, for one) the floating-point log2 rounds up, so the source allocates one slot more. That slot stays undefined, and A grows on demand in both, so nothing observable changes.
- FibHeap.ChildWalk: the child walk is cut off after |nodes| + 1 moves. A child ring that never returns to its start would make the source loop forever; the model stops instead.
- FibHeap.ExtractMin: the RangeError that `new Array` raises when n < 1 reaches consolidate is modelled as the result `Thrown`, with the heap as it then stands.
- FibHeap.Linked: the doubly-linked invariant is proved for insert, addToRootList, removeFromRootList and heapLink, not across a whole extractMin. The self-link scenario shows that consolidate can break the structure.
- The AlgorithmViewer.jsx driver is modelled through FibHeap.InsertAll and FibHeap.ExtractAfterInserts, and through the concrete scenarios, not literally with its keys 1, 2, 3, 5, 8, ....
- SequenceEngine.ClosestFibonacci: the input is an integer. Fractional inputs are not modelled.
- Digits: `formatFullNumber` and `formatNumberForDisplay` are modelled only on BigInt terms. The Number branches use `Intl.NumberFormat`.
- FibHeapFixed.AfterRemovalFixedLeast: the corrected extraction is proved to pick a least key among the roots, not among all nodes; heap order between parents and children is not modelled.
- FibHeapFixed.RootList: the copy of the root list stops after |nodes| nodes, so a ring that never returns to its start is cut off.
- Search: the asynchronous step animation of `runSearch` is left out.

## Findings

| source | as written | input that shows it | evidently intended | confidence | as-written member | corrected member |
|---|---|---|---|---|---|---|
| src/components/SequenceViewer.jsx:57-64 | the suffix table has six entries, so terms of 19 or more digits read `suffixes[6]`, which is undefined | term index 88 (1100087778366101931, 19 digits); the slider reaches count 100 | a suffix for every term the slider can show | not executed | Digits.SuffixMissingFromIndex88 | Digits.FixedSuffixCoversSlider |
| src/components/FibonacciSearchVisualizer.jsx:73-95 | with offset -1 and fibM 2, the probe index is -1; `arr[-1]` is undefined and fails both comparisons, so the search reports found at -1 | the default 50 odd numbers, target 0 | a probe outside the array counts as greater than the target, and absent targets are not found | not executed | Search.DefaultArrayMissingTarget | Search.DefaultArrayMissingTargetGuarded |
| src/components/FibonacciCodingExplorer.jsx:70-105 | the body already ends in '1', so the terminator "11" makes the first "11" start at the body's last bit; decoding drops the largest term and consumes one bit fewer | 'F' (70) encodes to 001000100111 and decodes to 15 | decodeText(encodeText(text)) == text, as the page's check expects | not executed | Coding.RoundTripAsWritten | Coding.RoundTripFixed |
| src/utils/fibonacciAlgorithms.js:183-202 | the start root is never added to `visited`, so the do-while meets it a second time, finds it in A and links it under itself | insert 1, 2, then extractMin: node 2 becomes its own parent and child | each root is consolidated once | not executed | FibHeapScenarios.SelfLink | FibHeapFixed.FixedNoSelfLink |
| src/utils/fibonacciAlgorithms.js:190-201 | after heapLink the walk reads `current.right` from a node that may now sit in a child ring, so it leaves the root list and later roots never enter A | insert 1, 2, 9, 5, then extractMin twice: the second call returns key 5 while key 2 is still in the heap | extractMin returns a least key | not executed | FibHeapScenarios.ExtractSkipsRoot | FibHeapFixed.AfterRemovalFixedLeast |
