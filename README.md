# go-sensitive matchers in Dafny

This project models the two sensitive-word matchers of go-sensitive:
`filter/ahocorasick.go` (an Aho-Corasick automaton) and `filter/dfa.go` (a
prefix tree scanned from every start position). Both implement the `Filter`
interface of `filter/filter.go`. That interface has six queries:

- `FindAll`: the distinct words found, in order of first report.
- `FindAllCount`: each word with its number of occurrences.
- `FindOne`: the first word reported.
- `IsSensitive`: whether any word occurs.
- `Replace`: every rune of every occurrence masked by a given rune.
- `Remove`: the text with the occurrences cut out.

The model works on texts already decoded into codepoints (`seq<char>`, the
role Go's `[]rune` plays). It has four parts:

- **The prefix tree** (module `Trie`). It is an arena of nodes: a sequence of
  maps from rune to child index, with the root at index 0. A ghost label
  gives each node the string that leads to it from the root. Module
  `Deletion` states what a run of `delWord` calls does to such a tree.
- **Reference definitions** of what each query means (module `Matching`).
  - The Aho-Corasick scan reports, at each text position, the dictionary
    words that end there, longest first (`AcStream`).
  - The DFA scan reports, at each start position, the words that start
    there, shortest first (`DfaStream`).
  - Masking is stated as "covered by some occurrence" (`MaskAll`).
  - Removal is stated as a step function per rune (`AcRemove`, `DfaRemove`).
- **The two matchers** as classes whose methods change the tree in place:
  `AhoCorasick.AcModel` and `Dfa.DfaModel`. Each query method uses loops,
  and each is proved equal to its reference definition.
- **The repository's test scenario**, worked out symbolically: module
  `Scenarios`, with generic lemmas about texts whose words all have one
  length in module `Uniform`.

Two of the source's transition and deletion paths can put a nil pointer in
play, and the model represents both explicitly.

- The Aho-Corasick scans' fallback loop (`filter/ahocorasick.go:150-156`)
  skips a fail target. On some inputs it then dereferences nil; on others
  it lands on a node whose label is not a suffix of the text, and the scan
  reports a word that does not occur. Both paths are described under
  Findings. The scans in the model use the evidently intended transition,
  `Next`. `WrittenMove` and `StepAsWritten` keep the transition as written.
  The two agree wherever a step satisfies `StepOk`, which holds at every
  step on the repository's test dictionary (`Scenarios.Dict1FailsToRoot`).
- `delWord` in both files dereferences `lastLeaf` when no proper prefix of
  the word is itself a word. That outcome is the `NoTerminalPrefix` value of
  `DelOutcome`. It leaves the tree unchanged, and `delWords` stops at it.

## Model

| member | source | states |
|---|---|---|
| Trie.LongestPathSuffixStep | filter/ahocorasick.go:149-163 | the automaton state after reading one more rune depends only on the state before it: the longest tree-path suffix of `text + [c]` is the longest tree-path suffix of `state + [c]` |
| Trie.GrowAlong | filter/ahocorasick.go:45-46 | following an existing child during insertion extends the walk of the word by one rune and adds no path |
| Trie.AddChildWalk | filter/ahocorasick.go:47-50 | after a child is added, the string of the new edge walks to the new node and every other string walks where it did before |
| Trie.CutAfterPrefix | filter/ahocorasick.go:84 | deleting the child edge of the node for `w[..k]` along `w[k]` removes exactly the paths and words that extend `w[..k+1]` and keeps every other path and word |
| AhoCorasick.AcModel.constructor | filter/ahocorasick.go:26-30 | a new automaton has an empty dictionary, has only the root as a path, and has consistent fail pointers |
| AhoCorasick.AcModel.AddWord | filter/ahocorasick.go:40-56 | the dictionary grows by exactly the word; the word's node carries it at depth `|w|`; the new paths are exactly the prefixes of the word; existing walks and fail pointers are kept |
| AhoCorasick.AcModel.Descend | filter/ahocorasick.go:44-52 | one rune of insertion reuses an existing child or appends a fresh node labelled with the longer prefix |
| AhoCorasick.AcModel.AddWords | filter/ahocorasick.go:32-38 | the dictionary becomes the old one plus every listed word, the paths become the old ones plus every prefix of a listed word, and the fail pointers are rebuilt |
| AhoCorasick.AcModel.DelWord | filter/ahocorasick.go:66-85 | a word absent as a path leaves everything unchanged; with no word-completing proper prefix the source panics (outcome `NoTerminalPrefix`, tree unchanged); otherwise the word is gone, a word-prefix of it is kept, and exactly the words and paths extending one rune past the deepest word-completing proper prefix are removed; the new tree is the one `DelStep` describes |
| AhoCorasick.AcModel.DeepestLeaf | filter/ahocorasick.go:67-82 | the walk along the word either misses a rune, or finds its node and the node of the deepest proper prefix that is a word (`lastLeaf`, `lastLeafNextRune`) |
| AhoCorasick.AcModel.DelWords | filter/ahocorasick.go:58-64 | the words and labels are kept; the run succeeds exactly when no deletion in it panics, and then the tree is the one the listed deletions produce in order (`DelAll`), every listed word is gone, and the fail pointers are rebuilt; the dictionary only shrinks |
| AhoCorasick.AcModel.BuildFailPointers | filter/ahocorasick.go:87-113 | after the breadth-first pass every reachable non-root node's fail pointer is its longest proper suffix that is a path; children, words and labels are unchanged |
| AhoCorasick.AcModel.ExpandNode | filter/ahocorasick.go:93-111 | expanding a dequeued node gives each of its children its correct fail target and enqueues it, keeping the breadth-first invariant |
| AhoCorasick.AcModel.ExpandChild | filter/ahocorasick.go:94-110 | one child gets the correct fail target and joins the queue tail |
| AhoCorasick.AcModel.FailTarget | filter/ahocorasick.go:96-107 | following fail pointers from the parent's fail target to the first node with an edge `c` yields the child's longest proper path suffix |
| AhoCorasick.RootChildFails | filter/ahocorasick.go:94-95 | a child of the root fails to the root, which is its longest proper path suffix |
| AhoCorasick.SearchFound | filter/ahocorasick.go:98-103 | the first node on the parent's fail chain with an edge `c` gives, through that edge, the child's correct fail target |
| AhoCorasick.SearchExhausted | filter/ahocorasick.go:104-106 | when the fail chain runs past the root without an edge `c`, the root is the child's correct fail target |
| AhoCorasick.ShallowerFails | filter/ahocorasick.go:88-112 | when a node is dequeued, it and every shallower reachable node already has its correct fail target (breadth-first order) |
| AhoCorasick.BfsDone | filter/ahocorasick.go:88-112 | an empty queue means every reachable non-root node has its correct fail target |
| AhoCorasick.FallStep | filter/ahocorasick.go:150-155 | following a fail pointer on a miss keeps the longest path suffix of the text reachable and moves to a strictly shallower node |
| AhoCorasick.AcModel.Next | filter/ahocorasick.go:150-163 | the intended transition: the new state is the longest suffix of `state + [r]` that is a tree path |
| AhoCorasick.AcModel.StepAsWritten | filter/ahocorasick.go:150-163 | the loop as written computes `WrittenMove`: it dereferences nil exactly when a miss at a non-root node whose fail target is not the root is followed by a miss at the fail target's fail target; wherever the node has the edge, is the root, or fails to the root, the step agrees with the intended one |
| AhoCorasick.WrittenMove | filter/ahocorasick.go:150-163 | the transition as written is undefined (nil dereference) exactly where `PanicsAt` holds, and is otherwise a node of the tree: on a miss it goes to the child along the rune of the fail target's fail target, then along that node's own edge or to the root |
| AhoCorasick.WrittenMoveOk | filter/ahocorasick.go:150-163 | where `StepOk` holds, the transition as written reaches the longest suffix of `state + [r]` that is a tree path |
| AhoCorasick.AaBbMisleads | filter/ahocorasick.go:150-163 | with the words "aa" and "bb" and correct fail pointers, reading 'b' at the node for "aa" does not panic but moves to the node for "bb", which is not a suffix of "aab", whose longest path suffix is "b" |
| AhoCorasick.AaBbState | filter/ahocorasick.go:150-163 | in the "aa"/"bb" tree the longest suffix of "aab" that is a path is "b" |
| AhoCorasick.AbcBcPanics | filter/ahocorasick.go:150-156 | with the words "abc" and "bc" and correct fail pointers, reading 'x' at the node for "ab" dereferences nil |
| AhoCorasick.TwoRuneFails | filter/ahocorasick.go:87-113 | with correct fail pointers, a node two runes deep whose last rune alone is a path fails to a non-root node that fails to the root |
| AhoCorasick.AbcBcMisses | filter/ahocorasick.go:150-156 | in the "abc"/"bc" tree neither the node for "ab" nor the root has an edge 'x' |
| AhoCorasick.ChainStep | filter/ahocorasick.go:167-172 | one step along the fail chain from a state reports that node's word, if any, followed by the words that are suffixes of its fail target |
| AhoCorasick.ChainAdvance | filter/ahocorasick.go:167-172 | the words collected so far plus the words still ahead on the fail chain are always all dictionary words ending the text, longest first |
| AhoCorasick.StateWords | filter/ahocorasick.go:165-172 | the dictionary words that are suffixes of the automaton state are exactly the dictionary words that are suffixes of the text read so far |
| AhoCorasick.AcModel.Chain | filter/ahocorasick.go:165-172 | walking the fail chain from a state reports exactly the dictionary words that are suffixes of the state, longest first |
| AhoCorasick.AcModel.Advance | filter/ahocorasick.go:149-172 | one rune of a scan keeps the state the longest path suffix of the text read and reports exactly the words ending at that rune |
| AhoCorasick.AcModel.FindAll | filter/ahocorasick.go:141-186 | the result is the deduplicated Aho-Corasick report stream |
| AhoCorasick.AcModel.FindAllCount | filter/ahocorasick.go:188-223 | the result maps each reported word to the number of times it is reported |
| AhoCorasick.AcModel.FindOne | filter/ahocorasick.go:225-259 | the result is the first reported word, or "" when nothing is reported |
| AhoCorasick.AcModel.IsSensitive | filter/ahocorasick.go:261-263 | the result is true exactly when some dictionary word occurs in the text |
| AhoCorasick.AcModel.Replace | filter/ahocorasick.go:265-301 | the result masks exactly the runes covered by some dictionary-word occurrence |
| AhoCorasick.AcModel.MaskStep | filter/ahocorasick.go:272-298 | after the rune at `pos`, the buffer masks exactly the runes covered by an occurrence ending at or before `pos` |
| AhoCorasick.AcModel.Remove | filter/ahocorasick.go:303-338 | the result is the reference removal: each reported word is spliced off the end of the output, and a splice longer than the output is the source's out-of-range panic (`None`) |
| Matching.SuffixWordsMember | filter/ahocorasick.go:165-172 | a word is reported at a position exactly when it is a non-empty dictionary word ending there |
| Matching.SuffixWordsLongestFirst | filter/ahocorasick.go:165-172 | the words reported at one position are strictly decreasing in length, so they are distinct |
| Matching.AcStreamMember | filter/ahocorasick.go:148-173 | a word is in the stream up to `n` exactly when it is a dictionary word with an occurrence ending at or before `n` |
| Matching.AcStreamSound | filter/ahocorasick.go:148-173 | every reported word is a dictionary word that occurs in the text |
| Matching.AcStreamComplete | filter/ahocorasick.go:148-173 | every occurrence of a dictionary word is reported |
| Matching.AcStreamCount | filter/ahocorasick.go:212-219 | each word is reported exactly as many times as it occurs in the text |
| Matching.AcStreamFirst | filter/ahocorasick.go:248-258 | the first report is the longest dictionary word with the earliest end |
| Matching.AcStreamEmpty | filter/ahocorasick.go:261-263 | nothing is reported exactly when no dictionary word occurs |
| Matching.StartWordsMember | filter/dfa.go:99-121 | a word is reported from a start position exactly when it is a dictionary word starting there that fits in the text |
| Matching.StartWordsShortestFirst | filter/dfa.go:99-121 | the words reported from one start are strictly increasing in length |
| Matching.DfaStreamMember | filter/dfa.go:98-122 | a word is in the DFA stream up to `n` exactly when it is a dictionary word starting before `n` |
| Matching.DfaStreamCount | filter/dfa.go:146-168 | each word is reported exactly as many times as it occurs |
| Matching.DfaStreamFirst | filter/dfa.go:182-199 | the first report is the shortest dictionary word with the earliest start |
| Matching.DfaStreamEmpty | filter/dfa.go:202-204 | nothing is reported exactly when no dictionary word occurs |
| Matching.DfaStreamRestart | filter/dfa.go:102-107 | restarting the scan one rune after the current start loses no reports |
| Matching.DfaFirstAt | filter/dfa.go:190-194 | a word found at start `s`, with nothing found from an earlier start or as a shorter word from `s`, is the first report |
| Matching.AcDfaSameOccurrences | filter/filter.go:4-17 | both engines report the same words the same number of times, in different orders |
| Matching.EnginesAgreeOnCounts | filter/filter.go:4-17 | both engines give the same `FindAllCount` map and the same `FindAll` set |
| Matching.DedupSpec | filter/ahocorasick.go:175-185 | deduplication keeps exactly the reported words, without repeats, in order of first report |
| Matching.Distinct | filter/ahocorasick.go:175-185 | the `set` map loop keeps exactly the first report of each word, in order |
| Matching.TallySpec | filter/ahocorasick.go:214-219 | the count map has a key exactly for each reported word, and the value is its number of reports |
| Matching.AddCounts | filter/ahocorasick.go:214-219 | incrementing the counts for a batch of reports gives the counts of the longer stream |
| Matching.DeepestPrefixIn | filter/ahocorasick.go:67-82 | the result is the length of the longest proper prefix of the word that is itself a word, or none when no proper prefix is |
| Matching.MaskEnding | filter/ahocorasick.go:288-297 | masking the words reported at one position masks exactly the runes inside those occurrences and leaves the others |
| Matching.CoveredStep | filter/ahocorasick.go:288-297 | a rune is covered by an occurrence ending by `pos + 1` exactly when it was already covered or lies in an occurrence ending at `pos + 1` |
| Matching.MaskedStep | filter/ahocorasick.go:272-298 | one masking step turns the buffer masked up to `pos` into the buffer masked up to `pos + 1` |
| Matching.MaskedEverything | filter/ahocorasick.go:300 | the buffer after the whole text is the fully masked text |
| Matching.SpliceOff | filter/ahocorasick.go:328-333 | splicing reported words off the rune buffer succeeds exactly when the reference splice does, and then leaves the spliced output followed by the unread rest |
| Matching.AcRemoveShape | filter/ahocorasick.go:303-338 | a removal that does not panic keeps a subsequence of the text, shorter by the total length of the reported words |
| Matching.AcRemoveNoMatch | filter/ahocorasick.go:303-338 | when nothing is reported, removal returns the text unchanged |
| Matching.FirstWordEnd | filter/dfa.go:247-264 | the end found from a start is the nearest end beyond the scanned span that makes a dictionary word, or none when no end does |
| Matching.DfaRemoveSubsequence | filter/dfa.go:237-269 | DFA removal keeps a subsequence of the text |
| Matching.DfaRemoveNoMatch | filter/dfa.go:237-269 | with no occurrence, DFA removal returns the text unchanged |
| Matching.LongestWordEnd | filter/dfa.go:215-229 | the end found from a start is an end that makes a dictionary word on the current buffer |
| Matching.LongestWordEndMax | filter/dfa.go:215-229 | no end beyond the one found makes a dictionary word, so the longest match from the start is masked |
| Matching.ReplaceShape | filter/dfa.go:206-235 | every rune of the DFA replacement is either the original rune or the mask |
| Matching.ReplaceKeepsMasks | filter/dfa.go:226-228 | a rune once masked stays masked |
| Matching.ReplaceNoMatch | filter/dfa.go:206-235 | with no occurrence, replacement returns the text unchanged |
| Matching.ReplaceSound | filter/dfa.go:206-235 | when the mask rune occurs in no word, every changed rune lies inside an occurrence |
| Matching.MaskedWhenUntouched | filter/dfa.go:215-229 | an occurrence still intact when the scan reaches its start ends up fully masked |
| Dfa.DfaModel.constructor | filter/dfa.go:19-23 | a new tree has an empty dictionary and only the root as a path |
| Dfa.DfaModel.AddWord | filter/dfa.go:31-46 | the dictionary grows by exactly the word; the word's node is a leaf; the new paths are exactly the word's prefixes; existing walks are kept; re-adding a present path leaves the tree unchanged |
| Dfa.DfaModel.Descend | filter/dfa.go:35-43 | one rune of insertion reuses an existing child or appends a fresh node labelled with the longer prefix |
| Dfa.DfaModel.AddWords | filter/dfa.go:25-29 | the dictionary becomes the old one plus every listed word, and the paths the old ones plus every prefix of a listed word |
| Dfa.DfaModel.DelWord | filter/dfa.go:54-73 | same three outcomes as the Aho-Corasick deletion: a missing path changes nothing; no word-completing proper prefix is the source's nil dereference; otherwise the words and paths past the deepest word-completing proper prefix are removed; the new tree is the one `DelStep` describes |
| Dfa.DfaModel.DeepestLeaf | filter/dfa.go:55-70 | the walk along the word either misses a rune, or finds its node and the deepest proper prefix that is a word |
| Dfa.DfaModel.DelWords | filter/dfa.go:48-52 | the leaf flags and labels are kept; the run succeeds exactly when no deletion in it panics, and then the tree is the one the listed deletions produce in order (`DelAll`) and every listed word is gone; the dictionary only shrinks |
| Deletion.DelStep | filter/ahocorasick.go:66-85 | one deletion that does not panic leaves a labelled tree |
| Deletion.DelAll | filter/ahocorasick.go:58-64 | a run of deletions that does not panic leaves a labelled tree |
| Deletion.DeepestStep | filter/ahocorasick.go:67-82 | one rune of the walk along the word follows the node's edge or shows the word is no path, and the deepest word-completing proper prefix moves to the current one exactly when its node is terminal |
| Deletion.DelStepWords | filter/ahocorasick.go:66-85 | one deletion that does not panic removes the word, adds no word, and keeps every proper prefix of the word that was a word |
| Deletion.DelAllWords | filter/ahocorasick.go:58-64 | a run of deletions that does not panic removes every listed word and adds none |
| Dfa.WalkHit | filter/dfa.go:100-109 | following an existing edge extends the walk of the scanned span, and the span is a dictionary word exactly when the new node is a leaf |
| Dfa.WalkMiss | filter/dfa.go:100-107 | a missing edge means no longer span from this start is a dictionary word |
| Dfa.FindTurn | filter/dfa.go:99-121 | one loop turn either extends the span or restarts one rune after the start, keeping the reports equal to the reference stream so far |
| Dfa.DfaModel.FindAll | filter/dfa.go:89-134 | the result is the deduplicated DFA report stream |
| Dfa.DfaModel.FindAllCount | filter/dfa.go:136-171 | the result maps each reported word to its number of reports |
| Dfa.DfaModel.FindOne | filter/dfa.go:173-200 | the result is the first reported word, or "" when nothing is reported |
| Dfa.DfaModel.IsSensitive | filter/dfa.go:202-204 | the result is true exactly when some dictionary word occurs |
| Dfa.MaskRange | filter/dfa.go:226-228 | masking a span sets exactly the runes of that span to the mask |
| Dfa.ReplaceStep | filter/dfa.go:215-232 | one loop turn keeps the buffer equal to the reference replacement for the starts already finished |
| Dfa.DfaModel.Replace | filter/dfa.go:206-235 | the result is the reference replacement: from each start, the longest match on the current buffer is masked |
| Dfa.RemoveTurn | filter/dfa.go:247-264 | one loop turn keeps the output equal to the reference removal of the text before the start |
| Dfa.DfaModel.Remove | filter/dfa.go:237-269 | the result is the reference removal: from each start, the nearest word end is cut out and the scan resumes after it |
| Uniform.FourWordsStream | filter/ahocorasick.go:148-173 | for a text holding four occurrences of words of one length with no other word end, the Aho-Corasick stream is exactly those four words |
| Uniform.FourWordsRemove | filter/ahocorasick.go:303-338 | for such a text, removal splices out exactly the four occurrences |
| Uniform.AcRemoveHit | filter/ahocorasick.go:328-333 | at a position where exactly one word ends, removal splices exactly that occurrence off the output |
| Scenarios.Text1AcStream | filter/ahocorasick_test.go:9-11 | on the test dictionary and text, the Aho-Corasick stream is `[W1, W2, W3, W1]`: the words 1, 2, 3, 1 in report order |
| Scenarios.Dict1NoBorder | filter/ahocorasick_test.go:9 | no nonempty prefix of a test word is a proper suffix of another such prefix |
| Scenarios.Dict1FailsToRoot | filter/ahocorasick.go:87-113 | on the test dictionary every correct fail pointer is the root, so every step satisfies `StepOk` and the transition as written is the intended one |
| Scenarios.NewLoaded | filter/ahocorasick_test.go:9 | loading the three test words gives a built automaton whose dictionary is exactly those words, whose paths are their prefixes, and on which every step satisfies `StepOk` |
| Scenarios.Text1Masked | filter/ahocorasick_test.go:175 | masking the test text with '*' gives the expected text |
| Scenarios.FindAllScenario | filter/ahocorasick_test.go:31 | `FindAll` on the test text gives the expected three words |
| Scenarios.FindAllCountScenario | filter/ahocorasick_test.go:66-70 | `FindAllCount` on the test text gives the expected counts 2, 1, 1 |
| Scenarios.FindOneScenario | filter/ahocorasick_test.go:105 | `FindOne` on the test text gives the first word |
| Scenarios.IsSensitiveScenario | filter/ahocorasick_test.go:140 | `IsSensitive` on the test text is true |
| Scenarios.ReplaceScenario | filter/ahocorasick_test.go:175 | `Replace` with '*' gives the expected masked text |
| Scenarios.RemoveScenario | filter/ahocorasick_test.go:210 | `Remove` gives the expected text with the four occurrences cut out |

## Left out

- `Listen` in both files reads channels in a goroutine. Concurrency is not modelled, and adding and deleting words are modelled as direct calls.
- `manager.go`, `options.go` and the `store` package: loading dictionaries from files, databases and memory is I/O, and none of it affects the matchers.
- UTF-8 decoding and encoding of `string` (`[]rune(text)`, `string(runes)`): texts are sequences of codepoints on both sides.
- Go map iteration order: maps are modelled as Dafny maps. The order of `FindAll` does not come from a map, because the source keeps a result slice.
- The DFA scenario of `manager_test.go` loads `default_dict.txt`, which is not part of this model.
- The six Aho-Corasick scans share one `Advance` step (transition plus fail-chain walk) rather than repeating the loop six times as the source does.
- AhoCorasick.AcModel.FindAll, FindAllCount, FindOne, IsSensitive, Replace and Remove require `Built()`, i.e. correct fail pointers for every node. After a bare `AddWord` without the rebuild done by `AddWords`, new nodes carry nil fail pointers; after a bare `DelWord` without the rebuild done by `DelWords`, surviving fail pointers can point into the cut subtree. The model does not follow scans in either state.
- AhoCorasick.AcModel.Advance: uses the intended transition `Next`, not the one written at lines 150-163. It agrees with the source only where the step satisfies `StepOk`; elsewhere the source either panics (`AbcBcPanics`) or moves to a wrong node (`AaBbMisleads`).
- AhoCorasick.AcModel.FindAll: built on `Advance`, so it agrees with the source only when every step satisfies `StepOk`. On the words {"aa", "bb"} and the text "aab" the source gives ["aa", "bb"] and the model ["aa"]. On the test dictionary every step satisfies `StepOk` (`Scenarios.Dict1FailsToRoot`).
- AhoCorasick.AcModel.FindAllCount: built on `Advance`, so it agrees with the source only when every step satisfies `StepOk`. On {"aa", "bb"} and "aab" the source also counts "bb" once.
- AhoCorasick.AcModel.FindOne: built on `Advance`, so it agrees with the source only when every step satisfies `StepOk`.
- AhoCorasick.AcModel.IsSensitive: built on `Advance`, so it agrees with the source only when every step satisfies `StepOk`.
- AhoCorasick.AcModel.Replace: built on `Advance`, so it agrees with the source only when every step satisfies `StepOk`. On {"aa", "bb"} and "aab" the source gives "***" and the model "**b".
- AhoCorasick.AcModel.MaskStep: one masking step after `Advance`; it agrees with the source only where the step satisfies `StepOk`.
- AhoCorasick.AcModel.Remove: built on `Advance`, so it agrees with the source only when every step satisfies `StepOk`. On {"aa", "bb"} and "aab" the source splices off "aa", then reads 'b' at the node for "aa", moves to "bb" and slices with a negative bound (a panic); the model reports nothing more there.
- AhoCorasick.AcModel.Remove: when two reported words end at one position, the source splices the second word from the already-shortened buffer. The model gives that result exactly, or `None` where the source indexes out of range. The reference removal's properties (`AcRemoveShape`) are stated only for results that are not `None`.
- AhoCorasick.AcModel.DelWords and Dfa.DfaModel.DelWords: when a deletion reaches the source's nil dereference, the model stops and returns false, so the words after it are left in place. The source panics instead.
- AhoCorasick.AcModel.DelWord and Dfa.DfaModel.DelWord: the nil dereference on `lastLeaf` is returned as the `NoTerminalPrefix` outcome, with the tree unchanged.
- Matching.ReplaceSound assumes that the mask rune occurs in no dictionary word. The DFA replacement matches on the buffer it is masking, so without that assumption a mask rune can complete a match.

## Findings

| source | as written | input that shows it | evidently intended | confidence | as-written member | corrected member |
|---|---|---|---|---|---|---|
| filter/ahocorasick.go:150-156 | on a miss at a non-root node, the retry loop's post statement replaces `now` by its child along the rune (nil when there is none), so the loop skips one fail target and then reads `fail` through nil | dictionary {"abc", "bc"}, text "abx": at the node for "ab", reading 'x' misses, the fail target "b" has no edge 'x', its fail target the root has none either, and the next test dereferences nil | follow fail pointers until a node has an edge for the rune or the root is reached, then take that edge or stay at the root | not executed | AhoCorasick.AcModel.StepAsWritten, AhoCorasick.AbcBcPanics | AhoCorasick.AcModel.Next |
| filter/ahocorasick.go:150-163 | when the fail target's fail target has an edge along the rune, the post statement moves there and line 158 then follows that node's own edge, so the state can become a node whose label is not a suffix of the text, or the root where a longer suffix is a path (with {"aa", "b"} and "aab" the word "b" is then missed) | dictionary {"aa", "bb"}, text "aab": at the node for "aa", reading 'b' misses, the fail target "a" is skipped, the root's edge 'b' leads to "b", and its edge 'b' to "bb"; the scan then reports "bb", which does not occur, so `FindAll` gives ["aa", "bb"] and `Replace` with '*' gives "***" | the state after "aab" is the node for "b", so only "aa" is reported and `Replace` gives "**b" | not executed | AhoCorasick.WrittenMove, AhoCorasick.AaBbMisleads | AhoCorasick.AcModel.Next |
