# WordSearch core in Dafny

This project models the core of a word-search program (a puzzle generator and a puzzle solver) and proves properties of that model.

**The solver.** It builds an Aho-Corasick automaton over every word of a list and over each word's reversal. It then reads the grid in four passes: every row, every column, every top-left to bottom-right diagonal and every top-right to bottom-left diagonal. Each line is run through the automaton. Each match becomes a `FoundWord` record with the word, its first and last cell and a direction label. A match of a reversed pattern is reported as the original word with the two cells swapped. Records are de-duplicated on the key `word|startRow,startCol|endRow,endCol`, and the first record with a key wins.

**The generator.** It writes words into an empty grid. A word may first get an intersection attempt, which places it across an equal letter of an already placed word. After that come up to 1000 random attempts. Finally every empty cell gets a random letter.

**Modules, by file:**
- `text.dfy` (`Text`): ASCII upper-casing, the letters-only view of a pattern, reversal, suffixes, and the decimal rendering of integers used in the key.
- `trie_spec.dfy` (`TrieSpec`): the string-level facts behind the automaton. The state after reading `s` is the longest suffix of `s` that a trie node spells, and a failure link leads to the longest proper one.
- `aho_corasick.dfy` (`AhoCorasick`): `class Automaton`, with the trie kept as an arena of nodes (parallel sequences of children, failure links and outputs), plus insertion, the breadth-first failure-link construction and the scan.
- `grid_lines.dfy` (`GridLines`): the lines the solver reads, with their cells and lengths. It proves that each diagonal family covers every cell exactly once.
- `found_words.dfy` (`FoundWords`): records, keys and direction labels, plus the set of records each line should produce. It proves that set is sound and complete against the grid, and proves the first-wins de-duplication facts.
- `word_search_solver.dfy` (`WordSearch`): `class WordSearchSolver`, with the scans as methods proved against those sets.
- `word_vector.dfy` (`WordVectors`): the placement vector of a word in the generator.
- `builder.dfy` (`Builders`): `class Builder`, with the placement checks, the writes, the intersection attempt, the random attempts, the placement loop and the fill.

Randomness is modelled as an arbitrary choice. `random.nextBoolean`, `random.nextInt(n)` and `Collections.shuffle` become `:|` choices from the same ranges, and a shuffle is any permutation. File reading and writing are left out. A grid is a `seq<seq<char>>` in the solver and an `array2<char>` in the generator.

## Model

| member | source | states |
|---|---|---|
| Text.LettersShape | AhoCorasickAutomaton.java:80-82 | the characters the trie keeps of a pattern are letters 'A'..'Z'; they are the whole pattern exactly when the pattern is all letters |
| Text.ReverseInvolution | WordSearchSolver.java:107-110 | reversing a reversed pattern gives back the upper-cased word |
| Text.IntToStringInjective | WordSearchSolver.java:52-54 | distinct integers render as distinct decimal strings |
| Text.IntToStringChars | WordSearchSolver.java:52-54 | a rendered integer is digits after an optional minus sign; the sign is present exactly for a negative number |
| TrieSpec.LongestSuffixShape | AhoCorasickAutomaton.java:97-101 | the state label is a node label and a suffix of the text, and no longer node label is a suffix |
| TrieSpec.ExtendLongest | AhoCorasickAutomaton.java:185-195 | knowing the longest node-suffix of the text read so far is enough to compute it after one more letter |
| TrieSpec.FailureStep | AhoCorasickAutomaton.java:146-148 | following a failure link on a missing edge does not change where the walk ends |
| TrieSpec.ChildFailure | AhoCorasickAutomaton.java:143-155 | a child's failure target is where the walk from its parent's failure target on the child's letter leads |
| TrieSpec.SuffixesThroughFailure | AhoCorasickAutomaton.java:157-158 | the node labels that are suffixes of a node's label are the label itself and the suffixes of its failure target, which justifies output inheritance |
| AhoCorasick.RunSuffix | AhoCorasickAutomaton.java:180-183 | an all-letter pattern ends at position e exactly when it is a suffix of the letter run ending at e, since a non-letter resets the scan |
| AhoCorasick.Automaton.constructor | AhoCorasickAutomaton.java:52-66 | pattern 2k is word k upper-cased and not reversed, pattern 2k+1 its reversal and reversed; the trie is complete and linked |
| AhoCorasick.Automaton.AddPattern | AhoCorasickAutomaton.java:74-92 | the pattern and its flag are appended under the next id; non-letters are skipped; the trie stays a trie; each node's output lists exactly the patterns whose letters spell that node |
| AhoCorasick.Automaton.AddChild | AhoCorasickAutomaton.java:84-86 | a fresh node is added as the child of the current node on the letter; it spells the parent's string plus that letter and has an empty output |
| AhoCorasick.Automaton.FollowFailures | AhoCorasickAutomaton.java:146-148 | the walk stops at the root or at a node with an edge on the letter, without changing the longest node-suffix of the label plus the letter |
| AhoCorasick.Automaton.BuildFailureLinks | AhoCorasickAutomaton.java:121-162 | afterwards every node's failure link leads to its longest proper suffix that is a node, and its output lists exactly the patterns whose letters are a suffix of its string |
| AhoCorasick.Automaton.LinkRootChildren | AhoCorasickAutomaton.java:124-131 | the root and its children link to the root and keep their outputs; the children are queued in letter order |
| AhoCorasick.Automaton.LinkChild | AhoCorasickAutomaton.java:139-158 | the child gets its longest proper suffix that is a node as failure link, a node other than itself, and inherits that node's outputs |
| AhoCorasick.Automaton.LinkChildrenOf | AhoCorasickAutomaton.java:134-160 | a dequeued node's children are linked and appended to the queue in letter order |
| AhoCorasick.Automaton.DepthOneCorrect | AhoCorasickAutomaton.java:125-129 | the root and the depth-one nodes are correct with the root as failure link |
| AhoCorasick.Automaton.Search | AhoCorasickAutomaton.java:170-204 | Match(id, e) is reported exactly when the letters of pattern id occur in the upper-cased text ending at index e; matches come in non-decreasing end order |
| AhoCorasick.Automaton.ReportAll | AhoCorasickAutomaton.java:198-200 | one Match(id, i) per output id, in output order, appended after the earlier matches |
| AhoCorasick.Automaton.NoMatchAtNonLetter | AhoCorasickAutomaton.java:180-183 | no pattern ends on a non-letter, so resetting to the root there misses nothing |
| AhoCorasick.Automaton.OutputIsOccurrences | AhoCorasickAutomaton.java:197-200 | in the state the scan keeps, the current node's output is exactly the set of patterns ending at the current index |
| AhoCorasick.Automaton.PatternPairs | AhoCorasickAutomaton.java:58-61 | isReversedPattern(id) holds exactly for odd ids; getPattern gives the upper-cased word or its reversal, and reversing one gives its partner |
| AhoCorasick.Automaton.PatternEndNode | AhoCorasickAutomaton.java:79-91 | each pattern ends at the node spelled by its letters, whose output lists it; that node is shallower than the pattern exactly when the pattern holds a non-letter |
| AhoCorasick.Automaton.ShallowLinks | AhoCorasickAutomaton.java:125-129 | the root and every depth-one node link to the root |
| AhoCorasick.Automaton.FailureLinkLongest | AhoCorasickAutomaton.java:99-100 | a non-root node's failure link spells a proper suffix of its string, and no node spells a longer one |
| GridLines.RowLines | WordSearchSolver.java:92 | row r is the r-th line of the horizontal scan |
| GridLines.ColumnLines | WordSearchSolver.java:124 | column c is the c-th line of the vertical scan |
| GridLines.TLBRFromColumn | WordSearchSolver.java:171-175 | the first diagonal loop starts at (r, 0) for each row r in turn |
| GridLines.TLBRFromRow | WordSearchSolver.java:187-191 | the second diagonal loop starts at (0, 1) .. (0, cols - 1) |
| GridLines.TLBRLines | WordSearchSolver.java:169-200 | the TL-BR scan reads rows + cols - 1 diagonals: first those from the first column, then those from the first row |
| GridLines.TRBLFromColumn | WordSearchSolver.java:224-228 | the first anti-diagonal loop starts at (r, cols - 1) for each row r in turn |
| GridLines.TRBLFromRow | WordSearchSolver.java:240-244 | the second anti-diagonal loop starts at (0, cols - 2) down to (0, 0) |
| GridLines.TRBLLines | WordSearchSolver.java:222-253 | the TR-BL scan reads rows + cols - 1 anti-diagonals: first those from the last column, then those from the first row |
| GridLines.LineInGrid | WordSearchSolver.java:175-181 | a line's index i is inside the grid exactly when i is below the line's length, where the while loop stops |
| GridLines.FamiliesMaximal | WordSearchSolver.java:171-253 | every line of the four scans starts on the grid's edge and runs to the opposite edge |
| GridLines.TLBRCoverage | WordSearchSolver.java:150-167 | the TL-BR diagonals read every cell of the grid exactly once |
| GridLines.TRBLCoverage | WordSearchSolver.java:203-220 | the TR-BL diagonals read every cell of the grid exactly once |
| GridLines.TLBRIndex | WordSearchSolver.java:169-200 | every cell lies on some TL-BR diagonal of the scan, at a known index |
| GridLines.TRBLIndex | WordSearchSolver.java:222-253 | every cell lies on some TR-BL diagonal of the scan, at a known index |
| GridLines.TLBRCell | WordSearchSolver.java:175-180 | closed form of the i-th cell of the j-th TL-BR diagonal |
| GridLines.TRBLCell | WordSearchSolver.java:228-233 | closed form of the i-th cell of the j-th TR-BL diagonal |
| FoundWords.WalkSteps | WordSearchSolver.java:105 | each direction label stands for a fixed (row, column) step from the first letter to the last |
| FoundWords.KeyBars | WordSearchSolver.java:52-54 | a key holds two more '\|' than its word |
| FoundWords.KeyInjective | WordSearchSolver.java:52-54 | for a word without '\|', two records share a key exactly when their words and both cells agree; the direction plays no part |
| FoundWords.NoBarInWord | WordSearchSolver.java:52-54 | an all-letter word holds no key separator |
| FoundWords.LabelWalks | WordSearchSolver.java:104-105 | walking a line by the forward label moves up its indices, and by the reverse label down them |
| FoundWords.TextAt | WordSearchSolver.java:93-96 | character i of the text read along a line comes from the line's i-th cell |
| FoundWords.UpperAt | AhoCorasickAutomaton.java:172 | the upper-cased text at index i is the upper-cased cell at index i |
| FoundWords.MatchesGiveExpected | WordSearchSolver.java:98-113 | given the automaton's guarantee, a line's matches give exactly the records expected for that line |
| FoundWords.FromMatchesStep | WordSearchSolver.java:99-113 | one more match adds its record, unless it is a diagonal match with an end off the line |
| FoundWords.ExpectedOfStep | WordSearchSolver.java:92 | one more line adds its records |
| FoundWords.ExpectedOfAppend | WordSearchSolver.java:169-200 | the records of two loops run one after the other are the records of each loop |
| FoundWords.ExpectedOfContains | WordSearchSolver.java:171-200 | every line's records are among the records of a scan that reads that line |
| FoundWords.ExpectedOfMember | WordSearchSolver.java:171-200 | every record of a scan comes from one of its lines |
| FoundWords.PatternWord | WordSearchSolver.java:107-112 | the word a record carries is the listed word upper-cased, for forward and reversed patterns alike |
| FoundWords.RecordForward | WordSearchSolver.java:101-112 | a forward match ending at i0 + \|w\| - 1 is reported as w from the cell at i0, in the forward direction |
| FoundWords.RecordBackward | WordSearchSolver.java:101-110 | a reversed match ending at i0 is reported as w from the cell at i0, walking the line backwards |
| FoundWords.ReadsAt | WordSearchSolver.java:98-113 | a record built from a match of an all-letter pattern spells its word in the grid, from its first cell to its last |
| FoundWords.ExpectedSound | WordSearchSolver.java:98-113 | each record of a line names a listed word, upper-cased; when the word is all letters, the record spells it in the grid |
| FoundWords.AllExpectedSound | WordSearchSolver.java:77-84 | the same holds for every record of the four scans |
| FoundWords.SpelledForward | WordSearchSolver.java:101-112 | the record of a forward pattern occurring in a line's upper-cased text ending at e spells the pattern in the grid from its start cell to its end cell |
| FoundWords.SpelledBackward | WordSearchSolver.java:101-110 | the record of a reversed pattern occurring ending at e spells the reversed-back word in the grid, from the cell at e back along the line |
| FoundWords.ForwardText | WordSearchSolver.java:93-98 | a word spelled along a line from index i0 occurs in the upper-cased text the automaton is given, ending at index i0 + \|w\| - 1 |
| FoundWords.BackwardText | WordSearchSolver.java:93-98 | a word spelled against a line from index i0 has its reversal in the upper-cased text, ending at index i0 |
| FoundWords.BackwardChar | WordSearchSolver.java:93-98 | letter n of a word spelled backwards from index i0 is character i0 - n of the line's upper-cased text |
| FoundWords.ForwardLetters | WordSearchSolver.java:101-102 | a pattern occurring in a line's upper-cased text ending at e is spelled in the grid from index e - \|p\| + 1 along the line |
| FoundWords.BackwardLetters | WordSearchSolver.java:101-110 | a pattern occurring ending at e has its reversal spelled in the grid from index e back along the line |
| FoundWords.InExpected | WordSearchSolver.java:98-113 | a reportable occurrence of a pattern on a line gives its record for that line |
| FoundWords.OnLineForward | WordSearchSolver.java:98-113 | an all-letter word spelled along a line is reported on that line by its forward pattern |
| FoundWords.OnLineBackward | WordSearchSolver.java:98-113 | an all-letter word spelled against a line is reported on that line by its reversed pattern |
| FoundWords.OnFamily | WordSearchSolver.java:98-113 | an all-letter word spelled along or against one line of a list is among that list's records |
| FoundWords.Complete | WordSearchSolver.java:77-84 | every occurrence of an all-letter listed word, in any of the eight directions, is among the records of the four scans |
| FoundWords.AddedAbsorbs | WordSearchSolver.java:300-308 | adding a record keeps the keys distinct and absorbs the record: it is appended exactly when its key is new |
| FoundWords.AbsorbedNothing | WordSearchSolver.java:300-308 | absorbing no records leaves the list as it is |
| FoundWords.AbsorbedTrans | WordSearchSolver.java:77-81 | absorbing one set of records and then another absorbs their union |
| FoundWords.NoNewKeys | WordSearchSolver.java:304-307 | records whose keys are all present change nothing, so a second solve returns the same list |
| FoundWords.OldKey | WordSearchSolver.java:304-307 | when no new key arrives, any appended record would repeat an earlier key |
| FoundWords.KeyedResult | WordSearchSolver.java:300-308 | every absorbed record has a result with its key |
| FoundWords.SolveComplete | WordSearchSolver.java:77-84 | after solve on a fresh solver, every occurrence of an all-letter listed word has a result with its word and both its cells |
| WordSearch.WordSearchSolver.constructor | WordSearchSolver.java:63-70 | keeps the grid, builds the automaton from the words, and starts with no results and an empty key map |
| WordSearch.WordSearchSolver.Solve | WordSearchSolver.java:77-84 | returns the results: addFoundWord applied, in order, to the records of the rows, then the columns, then the TL-BR and the TR-BL diagonals, each line's records in match order; so one record per new key is appended and nothing else, and with no new key the results are unchanged |
| WordSearch.WordSearchSolver.ScanHorizontal | WordSearchSolver.java:91-116 | the results are addFoundWord applied to the records of row 0, then row 1, and so on, each row's in match order; so they absorb every row's records |
| WordSearch.WordSearchSolver.ScanVertical | WordSearchSolver.java:123-148 | the results are addFoundWord applied to the records of column 0, then column 1, and so on, each column's in match order; so they absorb every column's records |
| WordSearch.WordSearchSolver.ScanLine | WordSearchSolver.java:92-115 | one row or column pass: the line's matches are exactly its pattern occurrences, and addFoundWord is applied to their records in match order |
| WordSearch.WordSearchSolver.ReadRow | WordSearchSolver.java:93-96 | the string built is the row read left to right |
| WordSearch.WordSearchSolver.ReadColumn | WordSearchSolver.java:125-128 | the string built is the column read top to bottom |
| WordSearch.WordSearchSolver.ReportLineMatch | WordSearchSolver.java:99-113 | a row or column match is added as its forward or reversed record |
| WordSearch.WordSearchSolver.ScanDiagonalTLBR | WordSearchSolver.java:169-201 | addFoundWord is applied to the records of the diagonals from the first column, top to bottom, then of those from the first row, left to right; so the results absorb every TL-BR diagonal's records |
| WordSearch.WordSearchSolver.ScanTLBRFromFirstColumn | WordSearchSolver.java:171-184 | addFoundWord is applied to the records of the diagonals from (0, 0), (1, 0), .. in that order, each diagonal's in match order |
| WordSearch.WordSearchSolver.ScanTLBRFromFirstRow | WordSearchSolver.java:187-200 | addFoundWord is applied to the records of the diagonals from (0, 1) .. (0, cols - 1) in that order, each diagonal's in match order |
| WordSearch.WordSearchSolver.ScanDiagonalTRBL | WordSearchSolver.java:222-254 | addFoundWord is applied to the records of the anti-diagonals from the last column, top to bottom, then of those from (0, cols - 2) down to (0, 0); so the results absorb every TR-BL diagonal's records |
| WordSearch.WordSearchSolver.ScanTRBLFromLastColumn | WordSearchSolver.java:224-237 | addFoundWord is applied to the records of the anti-diagonals from (0, cols - 1), (1, cols - 1), .. in that order, each in match order |
| WordSearch.WordSearchSolver.ScanTRBLFromFirstRow | WordSearchSolver.java:240-253 | addFoundWord is applied to the records of the anti-diagonals from (0, cols - 2) down to (0, 0) in that order, each in match order |
| WordSearch.WordSearchSolver.ScanDiagonal | WordSearchSolver.java:172-183 | one diagonal pass: the diagonal's matches are exactly its pattern occurrences, and addFoundWord is applied to their records in match order |
| WordSearch.WordSearchSolver.TraceDiagonal | WordSearchSolver.java:172-181 | diag is the diagonal's text and coords[i] the cell that supplied diag[i] |
| WordSearch.WordSearchSolver.ProcessDiagonalMatches | WordSearchSolver.java:264-288 | addFoundWord is applied to the record of each match in match order, skipping a match whose start or end index is off the diagonal |
| WordSearch.WordSearchSolver.ReportDiagonalMatch | WordSearchSolver.java:268-286 | one diagonal match: its record is added, with the cells swapped for a reversed pattern, unless its start or end index is off the diagonal, in which case nothing changes |
| WordSearch.WordSearchSolver.AddFoundWord | WordSearchSolver.java:300-308 | the record is appended, and entered in the key map, exactly when its key is new; the results keep distinct keys and the map matches them |
| WordSearch.WordSearchSolver.ScanNext | WordSearchSolver.java:92-115 | one iteration of a scan loop: the next line's records are reported after those of the lines before it |
| WordSearch.FamilyStep | WordSearchSolver.java:92-115 | reporting one more line's records extends the in-order report of the lines before it |
| WordSearch.SearchedStep | WordSearchSolver.java:92-98 | the automaton's guarantee, held for each earlier line, holds for one more |
| WordSearch.SearchedJoin | WordSearchSolver.java:77-84 | the automaton's guarantee, held line by line for two lists, holds for their concatenation |
| WordSearch.FamiliesJoin | WordSearchSolver.java:77-84 | running one scan after another reports the records of the concatenated lines, in order |
| FoundWords.AddAllAppend | WordSearchSolver.java:300-308 | adding the records of a, then those of b, is adding the records of a + b |
| FoundWords.AddAllAbsorbs | WordSearchSolver.java:300-308 | adding a list of records one by one absorbs exactly those records: one appended per new key, nothing else |
| FoundWords.AddAllDistinct | WordSearchSolver.java:300-308 | adding a list of records one by one keeps the keys of the results distinct |
| FoundWords.MatchAdded | WordSearchSolver.java:98-113 | one more match extends the in-order report by its record, or by nothing when it is skipped |
| FoundWords.MatchRecordsSet | WordSearchSolver.java:98-113 | the records listed from a line's matches, in match order, are the records built from them |
| FoundWords.ScanRecordsStep | WordSearchSolver.java:92-115 | one more line's records follow those of the lines before it |
| FoundWords.ScanRecordsAppend | WordSearchSolver.java:169-200 | the records of two loops run one after the other are the first loop's followed by the second's |
| FoundWords.LineRecordsSet | WordSearchSolver.java:98-113 | when the automaton's matches on a line are exactly the pattern occurrences there, the line's reported records are exactly its records |
| FoundWords.ScanRecordsSet | WordSearchSolver.java:92-115 | with the automaton's guarantee on every line, a scan's ordered records are exactly the records of its lines |
| FoundWords.ScanAbsorbs | WordSearchSolver.java:300-308 | adding a scan's records in order absorbs the records of its lines |
| WordVectors.WordVector.GetPath | WordVector.java:60-66 | the path has one cell per letter, and path[i] is getCell(i) |
| WordVectors.BackwardMirrorsForward | WordVector.java:49-54 | a backward vector's cell n is the same-anchor forward vector's cell len - 1 - n, and the reverse |
| WordVectors.ConsecutiveCells | WordVector.java:49-54 | consecutive letters are (dy, dx) apart going forward and (-dy, -dx) going backward |
| WordVectors.GetCellInjective | WordVector.java:49-54 | with a non-zero direction, distinct letters have distinct cells |
| WordVectors.CellsBetweenEnds | WordVector.java:49-54 | with unit steps, if the anchor and the end cell are in the grid, so is every letter's cell |
| Builders.DirectionsShape | Builder.java:25-28 | the eight directions are distinct, unit and non-zero, and they are all such directions |
| Builders.ThroughCrosses | Builder.java:211-213 | the placement tried through a candidate puts its letter on the candidate's cell |
| Builders.CollectIntersections | Builder.java:191-203 | the candidates are exactly the (cell of placed letter j, index i) pairs with equal letters; nothing else is collected |
| Builders.IntersectionPersists | Builder.java:116-118 | once some word crosses an earlier one, placing more words keeps that true |
| Builders.IntersectionAnchorOffGrid | Builder.java:211-215 | a concrete candidate whose end cell passes the bounds test while its start cell is off the grid |
| Builders.CanPlaceInGrid | Builder.java:168-180 | a placement the corrected test accepts has every letter's cell inside the grid |
| Builders.Builder.constructor | Builder.java:50-57 | keeps the dimensions and the intersection flag; no word is placed |
| Builders.Builder.CanPlaceWordAsWritten | Builder.java:168-181 | false when the end cell is off the grid; otherwise true exactly when every letter's cell is empty or holds that letter |
| Builders.Builder.CanPlaceWord | Builder.java:168-181 | the corrected test: true exactly when both end cells are in the grid and every letter's cell is empty or holds that letter |
| Builders.Builder.CorrectedAgrees | Builder.java:168-181 | with the anchor in the grid, the corrected test and the written one answer alike |
| Builders.Builder.TooLongNeverFits | Builder.java:170-172 | a word longer than both grid dimensions fits in no direction |
| Builders.Builder.PlaceWord | Builder.java:248-260 | appends exactly the word's vector and writes letter i on getCell(i); cells off the path, and all filled cells, keep their contents; every placed word still reads correctly |
| Builders.Builder.PlacedKeepsOthers | Builder.java:248-260 | after the writes, the earlier words still read correctly |
| Builders.Builder.TryPlaceWordWithIntersection | Builder.java:189-223 | on success the word sits across an equal letter of an earlier word; on failure nothing changed and no candidate fits in any direction or orientation |
| Builders.Builder.TryAnchor | Builder.java:208-220 | one candidate, all eight directions, forward first: the first fit is placed through the candidate's cell, otherwise every direction is blocked |
| Builders.Builder.AnchorCrosses | Builder.java:208-217 | a word placed through a candidate crosses the placed word the candidate came from |
| Builders.Builder.PlaceRandomly | Builder.java:121-145 | at most MAX_PLACEMENT_ATTEMPTS random tries; either exactly the word's vector is appended or nothing changes |
| Builders.Builder.FillEmptyCells | Builder.java:281-287 | every empty cell becomes a letter 'A'..'Z', filled cells keep theirs, no cell stays empty, and the placed words still read correctly |
| Builders.Builder.PlaceNext | Builder.java:110-149 | one word: the intersection attempt when requested, not yet achieved and some word is placed, then the random attempts; at most one vector is appended; once set, hasIntersection stays set |
| Builders.Builder.PlaceAll | Builder.java:108-150 | the placed words are, in input order, exactly the words the outcome marks placed, and the unplaced ones are the rest |
| Builders.Builder.Generate | Builder.java:95-154 | after placement and fill, every placed word reads correctly, no cell is empty, and every cell off the placed words holds a letter 'A'..'Z' |

## Left out

- File I/O is not modelled. This covers reading the word list and the trim / upper-casing done while reading (Builder.java:84-92), the solution and puzzle files, the warning printed for an unplaced word, and `begin`'s exception handler. `Generate` takes the words as given.
- SolverMain.java and Generator.java (command line, GUI, result printing) are not part of this model.
- Java's `toUpperCase` is modelled for ASCII only ('a'..'z' to 'A'..'Z'). Locale-dependent and non-ASCII case mappings are left out.
- `java.util.Random` and `Collections.shuffle` are modelled as arbitrary choices from their ranges, not as the real generator.
- WordSearch.WordSearchSolver.constructor and AhoCorasick.Automaton.constructor require every upper-cased word to contain at least one letter 'A'..'Z'. A letter-free word would end at the root and match at every letter position; that degenerate case is excluded.
- WordSearch.WordSearchSolver.constructor requires a rectangular grid with at least one row and one column. That holds at the only caller: the grid reader (SolverMain.java:283-296) rejects an empty file and rows of unequal length, and keeps only nonempty lines. The class itself accepts more. A grid of empty rows gives cols = 0 and an empty result. A row longer than row 0 is cut to its first cols characters, because only columns below cols are read (WordSearchSolver.java:93-95). The model excludes both. The model also excludes the inputs that do throw: a zero-row grid (at `grid[0].length`, WordSearchSolver.java:66) and a row shorter than row 0.
- Builders.Builder.Generate requires positive dimensions, which `random.nextInt` needs. It also requires no '\0' character in a word, because '\0' is the empty-cell sentinel.
- Direction labels are an eight-value datatype, `Label` gives their strings, and the reversed labels are the ones the source stores.
- WordVector is a datatype. Its getters are the datatype's destructors, so they have no members of their own.
- Patterns with non-letters are stored whole while the trie skips the non-letters. On rows and columns the start index is computed from the whole pattern's length, as in the source, so such a record can carry coordinates off the grid. FoundWords.ExpectedSound and FoundWords.Complete therefore claim that a record spells its word only for all-letter words.
- Several loop bodies of the source are separate methods: `ReadRow`, `ReadColumn`, `ReportLineMatch` and `ScanLine` for the row and column scans; `TraceDiagonal` and `ScanDiagonal` for one diagonal; one method per diagonal loop; `ScanNext` for one iteration of any of those loops; and `ReportDiagonalMatch` for one iteration of the loop over a diagonal's matches. `ScanTLBRFromFirstRow` and `ScanTRBLFromFirstRow` count with an index k and compute `startCol` from it (k + 1 and cols - 2 - k), which visits the same start columns in the same order as the source.
- The trie's nodes are an arena of indices, not linked objects. The root's failure link is node 0 itself, and a node's failure link is 0 until it is linked, where the source has `null`.
- The de-duplication map in the solver is a `map<string, FoundWord>`. HashMap hashing is not modelled.
- Text.NatToString and Text.IntToString state their properties in separate lemmas (Text.NatToStringDigits, Text.IntToStringChars, Text.IntToStringInjective), not in their own contracts.
- Integers are unbounded; 32-bit overflow of coordinates does not arise for grids that fit in memory and is not modelled.

## Findings

| source | as written | input that shows it | evidently intended | confidence | as-written member | corrected member |
|---|---|---|---|---|---|---|
| Builder.java:168-180, 211-215 | `canPlaceWord` bounds-checks only the end cell, then reads every cell of the path; `tryPlaceWordWithIntersection` can pass it a start cell outside the grid | CAT placed at (0, 0) direction (1, 0) in a 10 x 10 grid; placing ACE with letter 1 on CAT's C in direction (1, 0) forward starts at (0, -1) with end (0, 1); the first read is `grid[0][-1]`, an ArrayIndexOutOfBoundsException | reject a placement unless both its start and end cells are in the grid | not executed | Builders.Builder.CanPlaceWordAsWritten, Builders.IntersectionAnchorOffGrid | Builders.Builder.CanPlaceWord, Builders.CanPlaceInGrid |
