# Verified models of the klib algorithms

The repository is a file transfer tool; its algorithms are in the bundled `klib/` directory and in
`algorithm.c`. This project models those algorithms in Dafny, in the form the C code has (nodes,
tables, rows and buffers that are changed in place; loops with invariants; threads as interleaved
atomic steps), and proves what they are for.

- `BTreeModel.dfy`, `BTree.dfy`, `BTreeIterator.dfy`: the B-tree of `klib/kbtree.h`. Nodes are
  objects that own disjoint subtrees; every operation is tied to the tree read off the nodes and to
  its in-order key sequence. A key has a rank, which is all that the comparison looks at, and a tag.
- `KhashFlags.dfy`, `KhashProbe.dfy`, `KhashModel.dfy`, `Khash.dfy`, `KhashRound.dfy`: the hash
  table of `klib/khash.h`, from the two-bit flags up to a finite map, with the in-place rehash.
- `BoyerMoore.dfy`: the two shift tables and the search of `klib/kstring.c`.
- `Kmp.dfy`: the failure table and the search of `algorithm.c`.
- `KtFor.dfy`, `KtForPool.dfy`, `KtPipeline.dfy`, `KtPipelineItems.dfy`: the work-stealing loop, the thread pool around it
  and the ordered pipeline of `klib/kthread.c`.
- `Ksw.dfy`: the banded global alignment score of `klib/ksw.c`.
- `Kexpr.dfy`, `KexprGrammar.dfy`: the expression compiler and stack machine of `klib/kexpr.c`, and the
  grammar of its expressions, with the order of the operators written out apart from the parser's table.
- `KhmmModel.dfy`, `Khmm.dfy`, `KhmmData.dfy`, `KhmmViterbi.dfy`: the hidden Markov model algorithms
  of `klib/khmm.c` over exact real numbers.
- `Sha1Model.dfy`, `Sha1Facts.dfy`, `Sha1.dfy`: SHA-1 as FIPS 180-4 and HMAC as RFC 2104 define them,
  what these definitions amount to, with the digest of abc, and the stream
  object of `klib/kurl.c`.
- `Kgraph.dfy`: the bidirected graph of `klib/kgraph.h` over finite maps.
- `Arithmetic.dfy`, `Sequences.dfy`, `Wrappers.dfy`: remainders, products and powers of two, a law of
  sequences, and values that may be missing.

Where the code does not do what it is said to do, the project says exactly when it does:

- Deleting from the B-tree writes the caller's key over a separator that merely compares equal to
  it when the separator's two children are both minimal. The key given back is the one key gone if
  and only if the descent for it does not come to such a separator (`BTree.KBTree.Del`,
  `BTree.SeparatorLost`).
- In `kexpr.c` a comma does not reset the flag that tells unary from binary signs. An expression
  with the parentheses it needs is compiled correctly if no argument after a comma begins with a
  sign, and otherwise is an error (`Kexpr.ParseCorrect`).
- The pipeline ends after the first step has yielded nothing more, whatever the number of its steps
  is (`KtPipeline.DryRunEnds`), unless that is one: then it never ends (`KtPipeline.OneStepNeverEnds`).
- The banded alignment does not look at alignments that begin with two gaps. The score is the best
  of all alignments within the band if the first two residues score at least -2 gape against each
  other, or the band has no room for a gap (`Ksw.AllAlignmentsBest`). The bound is exact: below it
  there is for every score of the first pair an input that fails (`Ksw.FirstPairExact`). For sequences
  of one residue that scores v, n of them, it is best if and only if n(v + 2 gape) + 2 gapo is not
  negative (`Ksw.UniformExact`).
- Arcs of the graph are mirrored as long as vertex numbers are below 2^30, and for no number from
  there on (`Kgraph.IdLimit`).
- The two assertions of the Viterbi algorithm hold if and only if every state can be entered at every
  observation but the first by a path above -1e300 and some path stays above it to the end
  (`KhmmViterbi.HmmViterbi`).

## Model

| member | source | states |
|---|---|---|
| BTree.GetAux | klib/kbtree.h:103-117 | the binary search in a node finds the first key comparing equal, or else the last smaller key, and tells which |
| BTree.Search | klib/kbtree.h:119-131 | the descent finds a key comparing equal exactly when the tree holds one |
| BTree.KBTree.Getp | klib/kbtree.h:119-131 | `kb_getp` is null exactly when no key held compares equal, and otherwise points at one that does |
| BTree.Surround | klib/kbtree.h:138-154 | the loop of the interval search keeps the nearest keys on either side that it has passed |
| BTree.KBTree.Intervalp | klib/kbtree.h:138-154 | both bounds are a key comparing equal, if there is one; otherwise they are the greatest smaller and the least larger key, each null exactly when there is none |
| BTree.SplitKid | klib/kbtree.h:162-177 | splitting a child in place: the middle key moves up, the upper half goes to a new node, nothing else changes |
| BTreeModel.SplitFlat | klib/kbtree.h:162-177 | a split leaves the in-order key sequence as it is |
| BTree.SplitFull | klib/kbtree.h:191-194 | after the pre-emptive split the chosen half has room and is where the key belongs |
| BTree.PutAux | klib/kbtree.h:178-198 | insertion below a node with room adds exactly the key, in order, and keeps occupancy and depth; the slot given back is the place of the new copy |
| BTree.StandsKey | klib/kbtree.h:181-187 | what stands at a place of the tree's sequence, reached through the nodes, is the key there |
| BTree.Grow | klib/kbtree.h:204-211 | a full root is split under a new root: same keys, one level more |
| BTree.KBTree.Put | klib/kbtree.h:199-213 | `kb_putp` keeps the tree valid, inserts one copy of the key in order and returns the slot of the leaf that is the copy's place in the order |
| BTree.DelLeaf | klib/kbtree.h:231-237 | in a leaf exactly the key asked for goes: the one found, the last, or the first |
| BTree.DelPredecessor | klib/kbtree.h:239-243 | the separator is replaced by the greatest key on its left, taken out there: exactly the separator goes |
| BTree.DelSuccessor | klib/kbtree.h:244-248 | the same with the least key on its right |
| BTree.DelMerged | klib/kbtree.h:249-260 | two minimal children are merged with the caller's key in the separator's place, and one key comparing equal to it is taken out below |
| BTree.DelSeparator | klib/kbtree.h:238-261 | whichever of the three branches is taken, one key comparing equal goes, and order, occupancy and depth are kept; the predecessor takes its place if the left child has a key to give, else the successor if the right one has, else the two become one |
| BTree.TakeFromLeft | klib/kbtree.h:264-270 | borrowing from the left neighbour: same key sequence, the child gets one key more |
| BTree.TakeFromRight | klib/kbtree.h:271-277 | borrowing from the right neighbour |
| BTree.MergeWithLeft | klib/kbtree.h:278-287 | merging with the left neighbour: same key sequence, one separator fewer |
| BTree.MergeWithRight | klib/kbtree.h:288-297 | merging with the right neighbour |
| BTreeModel.ThickerChooses | klib/kbtree.h:263-298 | a child with too few keys gets one from the left neighbour if that has one to give, else from the right one, else it is merged with the left one, or with the right one if it is the first |
| BTree.Thicken | klib/kbtree.h:262-298 | after whichever rearrangement, the child to go into covers what it covered before and holds at least t keys |
| BTreeModel.RotateFlat | klib/kbtree.h:264-277 | moving the boundary between two children leaves the in-order key sequence as it is |
| BTreeModel.MergeFlat | klib/kbtree.h:249-258 | merging two children around a key puts exactly that key between their sequences |
| BTree.DelBelow | klib/kbtree.h:262-299 | deletion that goes on below a prepared child |
| BTree.Delp | klib/kbtree.h:221-300 | one key goes: with s=0 one comparing equal to k, with s=1 the greatest, with s=2 the least; order, occupancy and depth are kept, and keys are overwritten only in the branch that does so |
| BTree.KBTree.DropRoot | klib/kbtree.h:307-312 | an empty internal root gives way to its child: same keys, one level less |
| BTree.KBTree.Del | klib/kbtree.h:301-314 | `kb_delp` keeps the tree valid and takes out one key comparing equal to k; the key given back is the only one gone if and only if the descent meets no separator that is overwritten |
| BTree.ExactMerged | klib/kbtree.h:249-260 | the merge branch leaves the sequence unchanged just when the separator is k itself and nothing is overwritten below |
| BTree.ErasedWhen | klib/kbtree.h:221-300 | the key given back is the one key gone just when no key has been overwritten |
| BTree.ErasedRanks | klib/kbtree.h:221-300 | in every case the ranks lose exactly one copy of k's, and keys of other ranks stay |
| BTree.ErasedExactly | klib/kbtree.h:221-300 | if all keys comparing equal to k are k, the multiset of keys loses exactly one k |
| BTree.ErasedUnique | klib/kbtree.h:221-300 | if only one key compares equal to k, just that key goes |
| BTree.SeparatorLost | klib/kbtree.h:249-259 | a tree and a probe key for which the descent comes to the overwriting branch: a stored key is lost and the probe stays behind |
| BTreeModel.HeightBound | klib/kbtree.h:35 | a subtree of height h holds at least 2^(h+1)-1 keys |
| BTreeIterator.DepthBound | klib/kbtree.h:35-48 | while the number of keys fits an int the iterator needs at most 32 of its 64 frames |
| BTreeIterator.Iterator.First | klib/kbtree.h:321-332 | the stack stands at the first key, with all keys still to come; it is empty exactly for an empty tree |
| BTreeIterator.Iterator.PushDown | klib/kbtree.h:353-357 | the inner loop goes down the left edge of the next child and pushes the null frame, within the stack |
| BTreeIterator.Iterator.Next | klib/kbtree.h:348-362 | one step drops exactly the first of the keys still to come, and fails exactly when none is left |
| BTreeIterator.Traverse | klib/kbtree.h:320-362 | first, then next until it fails, visits exactly the sorted key sequence |
| KhashFlags.ReadSlot | klib/khash.h:165-167 | what the three tests on the two bits of a bucket mean |
| KhashFlags.SetIsdelTrue | klib/khash.h:171 | marking a live bucket deleted changes that bucket only |
| KhashFlags.SetIsemptyFalse | klib/khash.h:169 | clearing the empty bit of a never used bucket makes it live and changes no other |
| KhashFlags.SetIsbothFalse | klib/khash.h:170 | clearing both bits makes a bucket live and changes no other |
| KhashFlags.SetAllVacant | klib/khash.h:226 | the 0xaa fill makes every bucket never used |
| KhashProbe.ProbeNext | klib/khash.h:238 | the growing step takes the search to the next triangular place |
| KhashProbe.ProbeInjective | klib/khash.h:51-52 | the first 2^m probes of a table of 2^m buckets all differ |
| KhashProbe.ProbeCovers | klib/khash.h:51-52 | every bucket is reached within 2^m steps |
| KhashModel.Absent | klib/khash.h:237-241 | a search that meets a never used bucket and has met only other keys proves the key absent |
| KhashModel.MidTake | klib/khash.h:271-276 | taking an element into the hand keeps unmoved, placed and held elements together equal to the map |
| KhashModel.MidVacant | klib/khash.h:281 | with an element in hand the new table has a never used bucket, so the walk ends |
| KhashModel.MidPlace | klib/khash.h:282-291 | placing it, with or without kicking another one out, keeps that too |
| KhashModel.MidEnd | klib/khash.h:269-303 | at the end the new table holds exactly the map, has no deleted bucket, and as many used buckets as keys |
| KhashModel.PutNew | klib/khash.h:336-345 | filling a bucket on the key's chain adds exactly the key |
| KhashModel.DelLive | klib/khash.h:349-355 | a deleted mark takes out exactly the key and breaks no chain |
| Khash.FindVacant | klib/khash.h:278-281 | the walk ends at a never used bucket on the chain of the key |
| Khash.KickOut | klib/khash.h:277-292 | the kick-out loop terminates with the hand empty and the map kept |
| Khash.Rehash | klib/khash.h:269-294 | the loop over the old buckets leaves a table for the same map without deleted buckets |
| Khash.Rebuild | klib/khash.h:252-303 | growing, same-size and shrinking rehashes keep the map |
| Khash.Find | klib/khash.h:233-241 | the search loop of `kh_get` ends at the key's bucket exactly when the key is held, and never comes full circle |
| Khash.Seek | klib/khash.h:320-335 | the search loop of `kh_put` ends at the key's bucket, or else at the last deleted one before the end of its chain, or else at the unused one there |
| Khash.Walk | klib/khash.h:325-330 | the loop goes to the end of the chain, keeps the last deleted bucket passed, and never comes full circle |
| KhashRound.KroundupIsRoundUp | klib/khash.h:176 | on every 32-bit word kroundup32 is the least power of two not below it, or 0 when there is none |
| Khash.KHash.constructor | klib/khash.h:212-214 | a new table holds the empty map |
| Khash.KHash.Get | klib/khash.h:230-243 | finds a key exactly when it is in the map, with its value |
| Khash.KHash.Resize | klib/khash.h:244-306 | for any request the map is kept; a rehash happens exactly when the request is large enough, and leaves no deleted bucket |
| Khash.UpperIs | klib/khash.h:251 | the load limit is 0.77 of the buckets, plus one half, cut off |
| Khash.RoundedIs | klib/khash.h:249-250 | a request is rounded to the least power of two from four on that is not below it, or wraps round to four |
| Khash.KHash.MakeRoom | klib/khash.h:310-318 | at the load limit the table is rehashed into as many buckets if more than half of them hold no element, and otherwise into twice as many, four at first; and then there is room |
| Khash.KHash.Insert | klib/khash.h:320-347 | with room, the key is found or added in exactly the bucket the search gives, and no other bucket changes; the code tells present, unused or deleted bucket |
| Khash.KHash.Put | klib/khash.h:307-348 | the map gains exactly the key if it was not there; the bucket is the one the search gives, the number of buckets changes only at the load limit and then as above, and the return code tells present, fresh and reused |
| Khash.KHash.SetValue | klib/khash.h:521 | storing a value changes exactly the key's value |
| Khash.KHash.Del | klib/khash.h:349-355 | takes out exactly the key of a live bucket, which is marked deleted, and does nothing for any other bucket number |
| Khash.KHash.Clear | klib/khash.h:223-229 | leaves the empty map in a table of the same size, all buckets never used |
| BoyerMoore.PreBmBc | klib/kstring.c:140-143 | the bad-character table holds each byte's distance from the end of the pattern |
| BoyerMoore.Suffixes | klib/kstring.c:144-159 | `suff[i]` is the length of the longest common suffix of the pattern and its prefix ending at i |
| BoyerMoore.PreBmGsOuter | klib/kstring.c:161-167 | the first part of the good-suffix table holds the least shift past the mismatch that agrees with what matched |
| BoyerMoore.PreBmGs | klib/kstring.c:160-170 | the good-suffix table holds the least shift that agrees with what matched and changes the mismatched byte |
| BoyerMoore.KsBMPrep | klib/kstring.c:135-173 | both tables are as the search needs them |
| BoyerMoore.NoMatchSkipped | klib/kstring.c:187-189 | no shift smaller than the one taken leads to a match |
| BoyerMoore.Search | klib/kstring.c:182-193 | the search returns the leftmost occurrence or none, and goes from each position it tries just as far as the better of the two rules takes it |
| BoyerMoore.Kmemmem | klib/kstring.c:175-194 | the same with tables made now or before, which are handed back |
| Kmp.KmpNext | algorithm.c:268-283 | `next[i]` is the length of the longest proper border of the prefix ending at i |
| Kmp.KmpSearch | algorithm.c:285-303 | exactly the occurrences are reported, overlapping ones included, in increasing order, with at most as many fallback steps as the text has characters |
| KtFor.NextInv | klib/kthread.c:24-46 | every step of every worker keeps that an index is run or held exactly once if it has been fetched and not at all otherwise |
| KtFor.MeasureDown | klib/kthread.c:24-46 | every step brings the end nearer |
| KtFor.NotStuck | klib/kthread.c:34-46 | a worker that has not left can take a step |
| KtFor.StealsLeast | klib/kthread.c:24-32 | stealing is done from a counter that was the least when it was read: none is below that number now |
| KtFor.RunScanned | klib/kthread.c:28-30 | in every reachable state a scan holds the least number it has read, and where |
| KtFor.AllRunOnce | klib/kthread.c:24-60 | after the join each index has been run exactly once and there were n + 2 n_threads fetch-and-adds |
| KtFor.KtForCorrect | klib/kthread.c:24-60 | over every run: no index twice, bounded length, and where no step is left every index has been run |
| KtForPool.WorkerInv | klib/kthread.c:100-124 | every step of a worker keeps the invariant of the barrier |
| KtForPool.MainInv | klib/kthread.c:126-170 | every step of the caller keeps it |
| KtForPool.NoDeadlock | klib/kthread.c:90-170 | until the caller has returned some thread can take a step |
| KtForPool.ReturnsWhenDone | klib/kthread.c:158-170 | the caller returns only when all workers wait and every index has been run exactly once |
| KtForPool.PoolCorrect | klib/kthread.c:90-170 | both, over every run with any number of calls |
| KtForPool.CallEnds | klib/kthread.c:90-170 | a call for n indices with t threads is over after at most (n + 2t)(t + 3) + 4t + 3 steps, and when it is over exactly these n indices have been run, once each |
| KtPipeline.NextInv | klib/kthread.c:195-226 | every step of a worker keeps the invariant of the pipeline |
| KtPipeline.LogGrows | klib/kthread.c:202-216 | a call begins after all calls of the same step on smaller indices, and after the same item's previous step |
| KtPipeline.OneAtATime | klib/kthread.c:204-210 | at most one worker runs a step, and those with smaller indices are past it |
| KtPipeline.FrontRuns | klib/kthread.c:202-225 | the active worker with the least index is never blocked |
| KtPipeline.PipelineSafe | klib/kthread.c:195-226 | in every reachable state: exclusion, smaller items past the step, items in order at each step, steps in order for each item, no sleep but behind an earlier item that is not past the step, and no deadlock |
| KtPipelineItems.WhatNext | klib/kthread.c:219-221 | after the last step a worker takes a new item, after any other step with data it goes on with its item, and without data it leaves |
| KtPipelineItems.NextItems | klib/kthread.c:195-226 | every step of a worker keeps the history of each item: which steps it has been given and what they gave |
| KtPipelineItems.PipelineServes | klib/kthread.c:195-226 | in every reachable state data is passed on to the next step, an empty result ends the item, and nobody leaves after a last step; when all have left each item taken has had exactly the steps up to its first empty result, once each |
| KtPipeline.DryMeasure | klib/kthread.c:218-224 | once the first step yields nothing, every step brings the end nearer, unless there is just one |
| KtPipeline.DryRunEnds | klib/kthread.c:199-225 | so from any reachable state such a run is bounded |
| KtPipeline.OneStepNeverEnds | klib/kthread.c:220 | with a single step no worker ever leaves |
| Ksw.Profile | klib/ksw.c:469-473 | the query profile holds the score of each query residue against each residue type |
| Ksw.FirstRow | klib/ksw.c:474-478 | the first row is the first row of the recurrence |
| Ksw.UpdateCell | klib/ksw.c:487-509 | one cell: the score is the best of pair, gap down and gap across, and both gaps are carried on |
| Ksw.Row | klib/ksw.c:480-511 | overwriting the row from left to right gives the next row of the recurrence, for any band |
| Ksw.KswGlobal | klib/ksw.c:457-512 | the result is that of the full recurrence for all inputs; with penalties not negative, sequences not too long and the band reaching the end it is the best score of all alignments in the band whose leading gap is followed by a pair, and of all alignments in the band if the first pair scores at least -2 gape or the band has no room |
| Ksw.Upper | klib/ksw.c:457-512 | no alignment in the band scores above the recurrence |
| Ksw.AttainH | klib/ksw.c:487-496 | some alignment scores as much |
| Ksw.RecurrenceBest | klib/ksw.c:457-512 | the recurrence gives the best score, a gap of length l costing gapo + l gape (klib/ksw.h:34) |
| Ksw.NoOverflow | klib/ksw.c:487-509 | under the same bound nothing computed leaves 32 bits |
| Ksw.OutOfBand | klib/ksw.c:484-512 | if the band does not reach the end there is no alignment and the result is MINUS_INF, with one exception |
| Ksw.Improve | klib/ksw.c:475-486 | an alignment that begins with two gaps gives way to one that begins with a pair and is no worse, if the first pair scores at least -2 gape |
| Ksw.AllAlignmentsBest | klib/ksw.c:457-512 | then the recurrence gives the best score of all alignments within the band |
| Ksw.UniformExact | klib/ksw.c:457-512 | for sequences of one residue: the result is the best of all alignments exactly when n(v + 2 gape) + 2 gapo is not negative |
| Ksw.FirstPairExact | klib/ksw.c:457-512 | for given penalties and score of the first pair: every input gets the best of all alignments exactly when that score is at least -2 gape |
| Kexpr.ReduceOps | klib/kexpr.c:314-319 | the loop for an operator pops just the operators that bind more tightly |
| Kexpr.FlushOps | klib/kexpr.c:275-278 | the loops for parentheses, commas and the end pop up to a left parenthesis |
| Kexpr.CountNets | klib/kexpr.c:337-341 | the count of values that the output leaves |
| Kexpr.ParseCore | klib/kexpr.c:254-352 | the loops compute the parser's function on tokens, with its four errors |
| Kexpr.OpArrives | klib/kexpr.c:312-323 | an operator finds its left operand complete and disturbs nothing below |
| Kexpr.ReadsAll | klib/kexpr.c:269-325 | any expression with the parentheses it needs is taken in from any state it may stand in |
| Kexpr.StepTotal | klib/kexpr.c:269-342 | every token adds a fixed number of values to output and stack together |
| Kexpr.ParseCorrect | klib/kexpr.c:254-352 | the output is the post-order if no argument after a comma begins with a sign, and an error is reported otherwise |
| KexprGrammar.Spelling | klib/kexpr.c:80-96 | how each operator is written |
| KexprGrammar.DerivedIsGrouped | klib/kexpr.c:64-78 | the expressions with the parentheses they need are those of a grammar with one level for each set of operators, from the power down to the logical or |
| KexprGrammar.GrammarParsed | klib/kexpr.c:254-352 | every text of that grammar is compiled to the post-order of its derivation, or is an error if an argument after a comma begins with a sign |
| KexprGrammar.BinaryOrder | klib/kexpr.c:64-78 | of any two binary operators the left one goes first if it stands earlier in the order or in the same set, unless both are powers |
| KexprGrammar.UnaryFirst | klib/kexpr.c:64-78 | every unary operator goes before every binary one |
| KexprGrammar.MinimalFixed | klib/kexpr.c:64-78 | no parentheses are put into a text of the grammar |
| KexprGrammar.GrammarCompiled | klib/kexpr.c:254-399 | the text of any tree with the parentheses it needs is in the grammar, and is compiled to a program for the tree's value |
| Kexpr.MinimalSame | klib/kexpr.c:64-78 | parentheses put in only where the table of operators asks for them are enough and change nothing |
| Kexpr.EvalOne | klib/kexpr.c:378-393 | one element of the compiled expression acts on the stack |
| Kexpr.Eval | klib/kexpr.c:366-399 | the loop runs the whole expression, returns the bottom of the stack and tells whether a function without a body was met |
| Kexpr.ExecPost | klib/kexpr.c:376-394 | running the post-order of a tree pushes the value of the tree |
| Kexpr.CompilerCorrect | klib/kexpr.c:254-399 | parsing the text of a tree and running the output leaves exactly the tree's value |
| KhmmModel.Pairing | klib/khmm.c:145-241 | what has come forward times what is carried back is the same at every observation |
| KhmmModel.TotalIs | klib/khmm.c:145-241 | it is the sum over all n^L state paths of their joint probability |
| KhmmModel.StateSum | klib/khmm.c:286-293 | for one state it is the sum over the paths that are in the state there |
| Khmm.Scaling | klib/khmm.c:171-185 | the scaled rows add up to one, and the factors give back the unscaled sums |
| Khmm.ProdTotal | klib/khmm.c:174-184 | the product of all factors is the probability of the observations |
| Khmm.BackScaling | klib/khmm.c:226-235 | the scaled backward rows, with the factors, give back what is carried back |
| Khmm.Posterior | klib/khmm.c:286-293 | f b s is the share of the paths that are in the state: the posterior probability |
| Khmm.PosteriorsAddUp | klib/khmm.c:286-293 | the posterior probabilities of an observation add up to one |
| KhmmData.NextRow | klib/khmm.c:178-182 | the two inner loops compute one row of the forward table and its sum |
| KhmmData.PrevRow | klib/khmm.c:229-234 | the inner loops compute one row of the backward table |
| KhmmData.PreBackward | klib/khmm.c:194-206 | the auxiliary table holds emission times transition |
| KhmmData.HmmData.Forward | klib/khmm.c:145-190 | fills the tables; each row adds up to one and the factors multiply to the probability of the observations |
| KhmmData.HmmData.BackwardRows | klib/khmm.c:210-241 | fills the backward table; the value checked at the end is exactly one |
| KhmmData.HmmData.PostState | klib/khmm.c:286-293 | returns the exact posterior probability of each state, and their sum, one |
| KhmmData.HmmData.PostDecode | klib/khmm.c:264-282 | picks at each observation the first state of greatest posterior probability |
| KhmmViterbi.MaxInto | klib/khmm.c:113-119 | the loop finds the first of the best states to come from, or that none gives more than -1e300 |
| KhmmViterbi.BestNext | klib/khmm.c:109-122 | the best path into a state extends the best path into that one |
| KhmmViterbi.Backtrace | klib/khmm.c:132-134 | the backtrace follows the table to the path it records |
| KhmmViterbi.HmmViterbi | klib/khmm.c:83-141 | the value returned is the greatest score of all state paths, zero probabilities included, and the path has it; an assertion fails exactly when some state cannot be entered, or no path ends, above -1e300 |
| Sha1Facts.Rotl1Is | klib/kurl.c:325 | rotation by one, by value |
| Sha1Facts.Rotl5Is | klib/kurl.c:325 | rotation by five, by value |
| Sha1Facts.Rotl30Is | klib/kurl.c:325 | rotation by thirty, by value |
| Sha1Facts.ConstantsAreRoots | klib/kurl.c:335-338 | the four constants are the square roots of 2, 3, 5 and 10 in units of 2^-30, cut off |
| Sha1Facts.InitialBytes | klib/kurl.c:319 | the initial value is made of the bytes of the table |
| Sha1Facts.BytesAt | klib/kurl.c:370-377 | byte i of a number is its digit, the most significant first |
| Sha1Facts.AbcDigest | klib/kurl.c:317-383 | the digest of abc is the one that FIPS 180 gives |
| Sha1.PutBytes | klib/kurl.c:347 | storing a byte at offset k ^ 3 sets byte k of the big-endian words and no other |
| Sha1.ChooseIsCh | klib/kurl.c:335 | the source's form of Ch |
| Sha1.MajorityIsMaj | klib/kurl.c:337 | the source's form of Maj |
| Sha1.WindowNext | klib/kurl.c:331-334 | the circular schedule of sixteen words yields the schedule of eighty (sections 6.1.2 and 6.1.3 of FIPS 180-4) |
| Sha1.HashBlock | klib/kurl.c:327-343 | hashing a block in place is the compression function of FIPS 180-4 |
| Sha1.Sha1Info.Init | klib/kurl.c:317-323 | an empty stream with the initial hash value |
| Sha1.Sha1Info.AddByte | klib/kurl.c:345-352 | a byte is added, and a full block hashed |
| Sha1.Sha1Info.Write1 | klib/kurl.c:354-358 | the byte counter counts modulo 2^32 |
| Sha1.Sha1Info.Write | klib/kurl.c:360-363 | however a message is cut into writes, the stream holds the pieces put together |
| Sha1.Sha1Info.AddZeros | klib/kurl.c:369 | zeros up to eight bytes before the end of a block |
| Sha1.LengthBytes | klib/kurl.c:370-377 | the eight bytes written are the bit length |
| Sha1.Sha1Info.Output | klib/kurl.c:378-382 | the bytes of the reversed words are the digest |
| Sha1.Sha1Info.Final | klib/kurl.c:365-383 | for messages below 2^32 bytes the digest is SHA-1; for longer ones it is SHA-1 with the length reduced modulo 2^32 |
| Sha1.Sha1Info.InitHmac | klib/kurl.c:388-400 | the key is brought to block length, hashed if longer, and its inner pad written |
| Sha1.Sha1Info.FinalHmac | klib/kurl.c:402-410 | the result is HMAC as in section 2 of RFC 2104 |
| Kgraph.BothEnds | klib/kgraph.h:32-42 | u's table has the key 4v + d exactly when v exists and its table has 4u + 3 - d |
| Kgraph.FlipBits | klib/kgraph.h:40 | the opposite direction has both bits the other way round |
| Kgraph.KeyIs | klib/kgraph.h:37-40 | the keys in numbers, for vertex numbers below 2^30 |
| Kgraph.Stored | klib/kgraph.h:32-42 | x is stored under 4v + d at u and y under 4u + 3 - d at v, and nothing else changes |
| Kgraph.WithArcSymmetric | klib/kgraph.h:36-41 | putting both ends keeps that, loops included |
| Kgraph.NeighbourThere | klib/kgraph.h:51-55 | while a vertex is removed its neighbours and their arcs are found, as the source assumes |
| Kgraph.RemovedSymmetric | klib/kgraph.h:43-60 | without the vertex the graph is symmetric and no table mentions it |
| Kgraph.KGraph.PutV | klib/kgraph.h:26-31 | a new vertex has no arcs; an old one is left alone |
| Kgraph.KGraph.PutA | klib/kgraph.h:32-42 | exactly the two ends of the arc are added under these keys, each with its own value, and the vertices if need be |
| Kgraph.KGraph.DelV | klib/kgraph.h:43-60 | exactly the vertex and all arcs to it go |
| Kgraph.IdLimit | klib/kgraph.h:32-42 | for every 32-bit vertex number and direction: a loop put in has its mirror exactly when the number is below 2^30 |

## Left out

- B-tree: the byte layout and `memmove`, `n_nodes`, `kb_itr_get`, and deletion of absent keys (`kb_delp` is only modelled for keys that are present).
- BTree.KBTree.constructor: the degree t is given, not computed from a block size.
- Hash table: failure of allocation; sets without values; the double arithmetic of the load limit, which is exact for powers of two and is modelled by integers.
- Khash.KHash.Put: the one case excluded is a table of 2^31 buckets at its load limit, where doubling does not fit 32 bits.
- BoyerMoore.Kmemmem: patterns are not empty, as in the table for m - 1; the two tables, one block in the source, are two arrays.
- Kmp.KmpSearch: what is printed is a sequence of positions; patterns are not empty.
- KtFor: the branches for one thread, which are plain loops; the sentinel LONG_MAX is "no counter read yet" and counters are unbounded.
- KtForPool: `kt_forpool_destroy`; wake-ups happen only by signal or broadcast.
- KtPipeline: what the steps compute; only whether a step yields data matters.
- Ksw: the backtrack and its direction matrix, the extension and SSE2 alignments.
- Ksw.RecurrenceBest: is about alignments whose leading gap is followed by a pair, because the code looks at no others; Ksw.AllAlignmentsBest says when these are enough.
- Ksw.FirstPairExact: for penalties with room for an input of 2 gapo + 1 residues far from MINUS_INF; the condition is on the first pair alone, so below it a single input may still get the best of all alignments.
- Kexpr: lexing of numbers, names and strings, so that a text is a sequence of tokens; unassigned variables; operators are uninterpreted functions.
- Kexpr.Eval: only for compiled expressions that never take a value that is not there, which is all that well-formed texts give.
- Hidden Markov models: rounding, `hmm_lk`, expected counts and simulation.
- KhmmData.HmmData.Forward: needs observations of positive probability, because the source divides by their probability.
- KhmmViterbi.HmmViterbi: logarithms are exact numbers or minus infinity; where an assertion of the source fails the result is None.
- Sha1: words are those of a little-endian machine, on which the source relies.
- Kgraph: arc payloads are values, and the two hash tables are finite maps; the order in which `kg_del_v` meets the arcs is arbitrary.
- The JSON-like parser, suffix arrays, sorting, block compression, networking, file transfer and the small containers are not modelled.
