# Random walks and byte-pair encoding for cross-model entity alignment

This project models two sequential cores of the repository in Dafny and proves properties of them.

**The random-walk engine** (`data_loading/random_walker.cpp`) covers:

- the triple parser and the line loop that builds the graph, a map from a subject to its outgoing edges in input order;
- `randomWalk`, which alternates entity, predicate, entity and stops early at a node without edges;
- the two serialisations of a walk: the de-duplication key `walkToString` and the CSV line `walkToCSV`;
- `generateDistinctWalks`, with its bounded attempts and duplicate fallback;
- the `WalkBuffer` that batches CSV lines into the output file;
- the start-node selection and the shard split of `runParallelRandomWalks`;
- `NodeManager::getNextBatch`, with its used set and 90% reset;
- the request line of the server, including how it reaches the parser through the server's reused 1024-byte buffer.

The random generators are an explicit oracle, `Random.Rng`. It is an arbitrary stream of draws plus a count of the draws used. Every property is proved for every stream.

**The byte-pair-encoding tokenizer** (`src/tokenizer/utils.py` and `src/tokenizer/tokenizer.py`) covers:

- pair counting (`get_pair_freqs`) and pair merging (`merge_pair`);
- the two training loops, with ids 256, 257, ... in creation order;
- the hand-written UTF-8 decoder `decode`. It uses the byte layout of section 3 of RFC 3629, but it also decodes overlong forms and surrogates, and it accepts lead bytes F5–F7, which only `chr` rejects when the value exceeds U+10FFFF;
- the `CEGATokenize` class:
  - `train` and `register_special_tokens`;
  - the byte level of `decode`;
  - `encode_no_special` and `_build_vocab`;
  - the merge-id numbering of `load`, and its round trip with what `save` writes.

Python dicts keep insertion order, and `max`/`min` over a dict return the first best key. The model keeps that order (`PyDict.Dict`), because the choice of merge and the `save`/`load` round trip depend on it.

Each loop of the source is a `method` proved against a specification function (`WalkFrom`, `Tally`, `Merged`, `Decoded`, `TrainLoop`, `TokenizerLoop`, `Encoded`, ...). The lemmas beside it state what the source promises about that function. The main results are:

- `WalkSampler.RandomWalk`: every sampled walk follows edges of the graph. Conversely, every such walk is sampled by some stream (`WalkSampler.EveryWalkIsSampled`).
- `DistinctWalks.GenerateDistinctWalks`:
  - the walk count and the attempt count are bounded;
  - the walks are distinct while the fallback is off;
  - on a single-path node exactly `max(1, numWalks / 2)` walks come back.
- Training:
  - `BpeUtils.TrainResult` and `Tokenizer.TrainFitted` describe training completely: greedy, consecutive merges, and `vocab[t] == vocab[a] + vocab[b]`;
  - `_build_vocab` reproduces the vocabulary;
  - the merged list stands for the input bytes.
- Encoding and decoding:
  - `Tokenizer.CegaTokenize.EncodeDecode`: decoding what `encode_no_special` produced gives back the UTF-8 bytes of the text;
  - `Utf8.RoundTrip`: the UTF-8 decoder inverts encoding.

## Model

| member | source | states |
|---|---|---|
| GraphStore.StripDot | data_loading/random_walker.cpp:36-37 | the object loses at most one character, and exactly one trailing '.' when it ends in '.' |
| GraphStore.ParseTriple | data_loading/random_walker.cpp:32-39 | fails iff the line has fewer than three whitespace-separated words; otherwise subject and predicate are the first two words and the object is the third with at most one trailing '.' removed |
| GraphStore.ParseTripleOfLine | data_loading/random_walker.cpp:32-39 | three blank-separated words and any tail parse back to those words, the object with one trailing '.' stripped |
| GraphStore.ParseTripleStripsOneDot | data_loading/random_walker.cpp:36-37 | an N-Triples object followed by ". " loses the dot; with ".." only one dot goes |
| GraphStore.LoadGraph | data_loading/random_walker.cpp:78-89 | the graph's keys are exactly the subjects with an edge; each list is every edge of that subject in line order (empty and '#' lines skipped); the reported line numbers are exactly the malformed lines, 1-based and increasing |
| GraphStore.EdgesOf | data_loading/random_walker.cpp:78-89 | a subject gets at most one edge per line, and every edge it gets comes from a line naming it as subject |
| GraphStore.LoadStep | data_loading/random_walker.cpp:80-86 | one line of the loop (skip, or push_back on the subject's list) keeps "graph holds exactly the edges of the lines so far" |
| GraphStore.ReportStep | data_loading/random_walker.cpp:87-89 | one line of the loop keeps "failed lists exactly the malformed lines so far" |
| GraphStore.EligibleNodes | data_loading/random_walker.cpp:382-387 | the listed nodes are exactly the keys with a non-empty edge list, without repeats |
| GraphStore.Rate.Of | data_loading/random_walker.cpp:395 | the truncated sample size of a rate below 1 is at most the population |
| GraphStore.GetStartNodes | data_loading/random_walker.cpp:378-400 | only eligible nodes, no repeats; all eligible nodes when not sampling; exactly floor(|eligible| * rate) of them when sampling |
| GraphStore.DistinctPermutation | data_loading/random_walker.cpp:393 | shuffling a repeat-free node list keeps it repeat-free with the same nodes |
| GraphStore.DistinctCard | data_loading/random_walker.cpp:395-396 | a repeat-free listing of the eligible set has the set's size, so the sample size is taken of the set |
| Random.Below | data_loading/random_walker.cpp:135-139 | one uniform choice is an index below n; the oracle counts it as one draw, which stands for the shuffle of the edge indices (see ## Left out) |
| Random.Shuffle | data_loading/random_walker.cpp:393 | std::shuffle yields a permutation (same multiset, same length) for every stream |
| Text.SkipSpace | data_loading/random_walker.cpp:34 | drops exactly the leading white space |
| Text.WordLength | data_loading/random_walker.cpp:34 | the word extracted by `>>` is the longest prefix without white space |
| Text.ReadWord | data_loading/random_walker.cpp:34 | `>>` into a string yields a non-empty blank-free word, and fails iff only white space is left |
| Text.WordsAreWords | data_loading/random_walker.cpp:34 | every extracted word is non-empty and free of white space |
| Text.ThreeWords | data_loading/random_walker.cpp:34 | three blank-separated words are the first three extractions |
| Text.WordsOfWord | data_loading/random_walker.cpp:34 | a word followed by a blank is the first extraction, the rest follows |
| Text.ReadWordOfWord | data_loading/random_walker.cpp:600 | reading a word written before a blank gives the word and the rest |
| Text.WordLengthOfWord | data_loading/random_walker.cpp:34 | a word followed by white space or the end is extracted whole |
| Text.DigitRun | data_loading/random_walker.cpp:603 | the digits read by `>>` into an int are the maximal run of decimal digits |
| Text.ReadInt | data_loading/random_walker.cpp:603-604 | `>>` into an int yields a 32-bit value and consumes input |
| Text.ReadSignedDigits | data_loading/random_walker.cpp:603-604 | after a sign, a number that fits in 32 bits and consumes input, or failure |
| Text.ShowNat | data_loading/random_walker_client.cpp:68 | `<<` of a number writes a non-empty run of decimal digits |
| Text.ShowNatValue | data_loading/random_walker_client.cpp:68 | the digits written for n have value n |
| Text.DigitRunOfDigits | data_loading/random_walker.cpp:603 | a digit run followed by a non-digit is read whole |
| Text.ReadIntOfShowNat | data_loading/random_walker.cpp:603-604 | reading back a number the client wrote gives the number and the rest |
| Text.ReadDigits | data_loading/random_walker.cpp:603-604 | an unsigned digit run that fits in 32 bits reads as its value |
| WalkSampler.ChooseEdge | data_loading/random_walker.cpp:128-139 | the chosen edge index is below the number of edges |
| WalkSampler.WalkFromDraws | data_loading/random_walker.cpp:128-139 | sampling a walk (WalkFrom) reads the same generator stream forward, at most one oracle draw per step (the source's shuffle may use more generator outputs, see ## Left out); that it is a walk of the graph is WalkFromIsWalk |
| WalkSampler.WalkFromIsWalk | data_loading/random_walker.cpp:109-152 | the sampled walk starts at start, has at most `steps` edges, each token pair 2i+1, 2i+2 is an edge of entity 2i, and it ends early only at a node without edges |
| WalkSampler.ConsWalk | data_loading/random_walker.cpp:145-148 | appending the predicate and target of an edge of the current node in front of a walk from that target gives a walk |
| WalkSampler.WalkFromUsesLaterDraws | data_loading/random_walker.cpp:120-149 | a walk depends only on the draws from the generator's current position on |
| WalkSampler.WalkTail | data_loading/random_walker.cpp:120-148 | the first step of a walk is an edge of the start, and the rest is a walk from its target |
| WalkSampler.EveryWalkIsSampled | data_loading/random_walker.cpp:128-139 | every walk of the graph is produced by some stream: the sampler can take every edge at every step |
| WalkSampler.SampledWithChoice | data_loading/random_walker.cpp:134-139 | overriding the draw at the current position selects any given first edge |
| WalkSampler.RandomWalk | data_loading/random_walker.cpp:109-152 | the loop computes the reference walk; it is a walk of the graph of odd length at most max(1, 2·length−1), and exactly [start] when length ≤ 1 or start has no edges |
| WalkSampler.ChainWalk | data_loading/random_walker.cpp:118-120 | length counts entities: on A→B→C, lengths 3 and 5 both give A,p1,B,p2,C |
| WalkFormat.WalkToCsv | data_loading/random_walker.cpp:326-335 | a CSV line is non-empty and ends in a newline |
| WalkFormat.KeyShape | data_loading/random_walker.cpp:155-161 | the key (WalkKey) has at least one character per token and ends in ',' unless the walk is empty; that it identifies comma-free walks is KeyIdentifiesWalk |
| WalkFormat.Join | data_loading/random_walker.cpp:330-331 | joining n tokens with ',' gives at least n − 1 characters |
| WalkFormat.CsvIsKeyWithNewline | data_loading/random_walker.cpp:326-335 | the CSV line is the key with its final ',' replaced by '\n': same tokens and separators, no trailing comma |
| WalkFormat.CsvRoundTrip | data_loading/random_walker.cpp:326-335 | for tokens without ',' or newline, the line has exactly one newline (its last character), and splitting the rest on ',' gives back the walk |
| WalkFormat.KeyIdentifiesWalk | data_loading/random_walker.cpp:155-161 | equal walks have equal keys, and for comma-free tokens equal keys mean equal walks |
| WalkFormat.KeyCollision | data_loading/random_walker.cpp:155-161 | a ',' inside a token lets two different walks share a key |
| WalkFormat.Fields | data_loading/random_walker.cpp:330-331 | splitting on ',' gives at least one field |
| DistinctWalks.SinglePathWalk | data_loading/random_walker.cpp:128-139 | on a node with one path the sampled walk does not depend on the draws |
| DistinctWalks.Keys | data_loading/random_walker.cpp:168 | the key set holds the key of every stored walk |
| DistinctWalks.KeysAppend | data_loading/random_walker.cpp:183-184 | inserting a walk adds exactly its key |
| DistinctWalks.NotInKeys | data_loading/random_walker.cpp:181 | a key not in walkStrings differs from every stored walk's key |
| DistinctWalks.AddFresh | data_loading/random_walker.cpp:181-184 | appending a walk with a fresh key keeps the de-duplication guarantee |
| DistinctWalks.AddDuplicate | data_loading/random_walker.cpp:190-198 | a duplicate accepted by the fallback lands below index numWalks / 2 |
| DistinctWalks.SingleStep | data_loading/random_walker.cpp:174-199 | on a single path the first attempt is new, every later one a duplicate, and the fallback adds one copy per duplicate beyond 2·numWalks up to numWalks / 2 walks |
| DistinctWalks.SingleExit | data_loading/random_walker.cpp:174 | when the loop stops on a single path it holds max(1, numWalks / 2) walks |
| DistinctWalks.Step | data_loading/random_walker.cpp:174-207 | one attempt of the loop, in either branch, keeps the loop invariant |
| DistinctWalks.GenerateDistinctWalks | data_loading/random_walker.cpp:164-215 | at most numWalks walks and at most numWalks·10 sampler calls, and the loop stops only at one of the two bounds; every walk is a walk from startNode; distinct while duplicates ≤ 2·numWalks; a repeated key only below index numWalks / 2; a single path gives max(1, numWalks / 2) walks |
| BufferedSink.OutFile.constructor | data_loading/random_walker.cpp:415 | the output file starts empty |
| BufferedSink.WalkBuffer.constructor | data_loading/random_walker.cpp:293-296 | an empty buffer of the given capacity on the given file |
| BufferedSink.WalkBuffer.Flush | data_loading/random_walker.cpp:305-319 | appends the buffered lines, in order, to the file once and empties the buffer; an empty buffer changes nothing |
| BufferedSink.WalkBuffer.Add | data_loading/random_walker.cpp:298-303 | the line is appended to the added lines; a buffer that reaches maxSize is written with it and emptied, otherwise the file is unchanged; between calls the buffer holds fewer than maxSize lines |
| BufferedSink.WalkBuffer.Close | data_loading/random_walker.cpp:321-323 | the destructor's flush leaves the file as its initial text followed by every added line in order |
| BufferedSink.WalksFromNode | data_loading/random_walker.cpp:349-355 | walksPerNode walks from the node, each added to the buffer as its CSV line |
| BufferedSink.GenerateRandomWalks | data_loading/random_walker.cpp:337-366 | walk k starts at the k-th entry of each start node repeated walksPerNode times; the counter equals the number of walks; the file gets their CSV lines in order |
| BufferedSink.AppendWalks | data_loading/random_walker.cpp:348-362 | the walks of one more start node keep every walk paired with its start |
| ParallelRunner.CeilingCovers | data_loading/random_walker.cpp:427 | (M + T − 1) / T shards of that size cover M nodes |
| ParallelRunner.ShardStep | data_loading/random_walker.cpp:430-435 | appending the shard [start, end) to shards covering the first start nodes covers the first end nodes |
| ParallelRunner.SplitShards | data_loading/random_walker.cpp:427-435 | the shards are non-empty and contiguous, and their concatenation is the start nodes; there are at most T of them, all of size ceil(M/T) but the last, which is no larger; a negative thread count gives none |
| ParallelRunner.CutShards | data_loading/random_walker.cpp:429-435 | the shard loop with a given per-thread size: the concatenation is the nodes, all shards but the last have that size |
| NodeScheduler.Unused | data_loading/random_walker.cpp:497-502 | the pool is exactly the nodes of allNodes outside the used set |
| NodeScheduler.UnusedKeepsOrder | data_loading/random_walker.cpp:497-502 | the pool of a repeat-free node list is repeat-free |
| NodeScheduler.PoolSize | data_loading/random_walker.cpp:497-502 | the pool keeps at least |allNodes| − |used| nodes |
| NodeScheduler.TakeOfPermutation | data_loading/random_walker.cpp:517-518 | the first count nodes of a shuffled repeat-free pool are repeat-free and drawn from it |
| NodeScheduler.NodeManager.AfterReset | data_loading/random_walker.cpp:491-494 | the used set after the reset check is the old one or empty |
| NodeScheduler.NodeManager.BatchSize | data_loading/random_walker.cpp:505-513 | the batch size is at most batchSize and, when sampling, at most the pool; it is positive when the pool and batchSize are |
| NodeScheduler.NodeManager.constructor | data_loading/random_walker.cpp:469-485 | allNodes are exactly the keys with a non-empty edge list; nothing is used yet |
| NodeScheduler.NodeManager.UnusedPool | data_loading/random_walker.cpp:497-502 | the loop builds exactly the unused pool |
| NodeScheduler.NodeManager.GetNextBatch | data_loading/random_walker.cpp:487-531 | the batch has no repeats, holds nodes of allNodes not in the used set after the 90% reset, has the size the sampling rate and batchSize give, and afterwards used = used after reset ∪ batch |
| NodeScheduler.NodeManager.NeverStarves | data_loading/random_walker.cpp:491-513 | while there are nodes, every batch is non-empty: below the 90% mark more than a tenth of the nodes are unused |
| Request.ClientRequest | data_loading/random_walker_client.cpp:68 | the client's request line starts with the command |
| Request.ParseRequest | data_loading/random_walker.cpp:594-610 | a request whose first word is not the command keeps both defaults; every parsed number is a 32-bit value |
| Request.ParseClientRequest | data_loading/random_walker.cpp:600-606 | the line the client sends parses back to its two numbers |
| Request.ParseOfParts | data_loading/random_walker.cpp:600-606 | command, then two numbers read in turn, gives those numbers |
| Request.ReadBlankNumber | data_loading/random_walker.cpp:603 | a blank and a decimal number read back as the number |
| Request.ParseNumWalksOnly | data_loading/random_walker.cpp:603-606 | with only the first number the length falls back to the default |
| Request.ParseOfOnePart | data_loading/random_walker.cpp:603-606 | a failed second read keeps the default length |
| Request.ParseCommandOnly | data_loading/random_walker.cpp:600-609 | the bare command keeps both defaults |
| Request.ParseNonNumeric | data_loading/random_walker.cpp:603-609 | a first argument that is not a number keeps both defaults, even when a second one follows |
| Request.CString | data_loading/random_walker.cpp:594 | std::string(buffer) is the buffer up to its first NUL |
| Request.CStringUpTo | data_loading/random_walker.cpp:594 | a buffer whose first NUL is at k reads as its first k characters |
| Request.Overwrite | data_loading/random_walker.cpp:587 | read copies the message over the front of the buffer and leaves the rest |
| Request.ReadInto | data_loading/random_walker.cpp:587 | the array after read is the message followed by the old tail |
| Request.ReceiveRequestAsWritten | data_loading/random_walker.cpp:587-594 | the request as the server builds it: the whole reused buffer up to its first NUL |
| Request.StaleBufferRequest | data_loading/random_walker.cpp:541-610 | "GET_RANDOM_WALKS 5" after "GET_RANDOM_WALKS 100 20" parses as (500, 20) instead of (5, default) |
| Request.ReceiveRequest | data_loading/random_walker.cpp:587-594 | built from the bytes just read, the request is exactly the message |
| Request.ServeRequests | data_loading/random_walker.cpp:587-610 | over successive connections sharing one buffer, each request's parameters are the parse of its own message |
| PyDict.Empty | src/tokenizer/utils.py:9 | `{}` has no keys |
| PyDict.Put | src/tokenizer/utils.py:11 | `d[k] = v` maps k to v; a new key goes last, an existing key keeps its place |
| PyDict.Extensional | src/tokenizer/tokenizer.py:104 | two dicts with the same keys in the same order and the same values are equal |
| BpeUtils.Pairs | src/tokenizer/utils.py:10 | zip(ids, ids[1:]) is the |ids|−1 adjacent pairs, left to right |
| BpeUtils.OccursIsPair | src/tokenizer/utils.py:10 | a pair sits at some position of ids iff it is one of the zipped pairs |
| BpeUtils.Count | src/tokenizer/utils.py:11 | the number of occurrences is the multiset count |
| BpeUtils.TallyCounts | src/tokenizer/utils.py:9-12 | the keys are exactly the adjacent pairs, each counted as often as it occurs |
| BpeUtils.Tally | src/tokenizer/utils.py:9-12 | counting pairs one by one builds a well-formed insertion-ordered dict |
| BpeUtils.TallyStep | src/tokenizer/utils.py:11 | counting one more pair is `freqs[p] = freqs.get(p, 0) + 1` |
| BpeUtils.GetPairFreqs | src/tokenizer/utils.py:4-12 | the loop builds the tally of the adjacent pairs, keys in first-occurrence order |
| BpeUtils.TallyTotal | src/tokenizer/utils.py:9-12 | the counts add up to the number of pairs counted |
| BpeUtils.PairFreqsTotal | src/tokenizer/utils.py:4-12 | for non-empty ids the counts add up to len(ids) − 1 |
| BpeUtils.PairFreqsExample | src/tokenizer/utils.py:8 | [12,13,18,12,13] gives {(12,13): 2, (13,18): 1, (18,12): 1}, keys in that order |
| BpeUtils.ExampleKeys | src/tokenizer/utils.py:8 | the example's keys are each pair where it first occurs |
| BpeUtils.ExamplePairs | src/tokenizer/utils.py:8 | the example's zipped pairs |
| BpeUtils.ExampleFirstThree | src/tokenizer/utils.py:8 | the tally of the example's first three pairs |
| BpeUtils.ExampleFirstTwo | src/tokenizer/utils.py:8 | the tally of the example's first two pairs |
| BpeUtils.ArgMax | src/tokenizer/utils.py:39 | the position of the first key with the largest count |
| BpeUtils.MostFrequent | src/tokenizer/utils.py:39 | max(freqs, key=freqs.get): ValueError iff freqs is empty, otherwise a key with the largest count, every earlier key strictly smaller |
| BpeUtils.ArgMin | src/tokenizer/tokenizer.py:79 | the position of the first key with the smallest merge id (infinity when missing) |
| BpeUtils.LowestRanked | src/tokenizer/tokenizer.py:79-81 | the chosen pair is a key; it has a merge id whenever any key has, and then the smallest |
| BpeUtils.Merged | src/tokenizer/utils.py:15-29 | the merged list is no longer than the input and at least half as long, empty iff the input is, and holds only the new token and input entries; its exact length is MergedLength |
| BpeUtils.ScanPair | src/tokenizer/utils.py:23-25 | replacing a seen pair by the new token and moving two places keeps the scan invariant |
| BpeUtils.ScanOne | src/tokenizer/utils.py:26-28 | copying an entry and moving one place keeps the scan invariant |
| BpeUtils.MergePair | src/tokenizer/utils.py:15-29 | with the bounds check made first, the loop computes the left-to-right non-overlapping merge |
| BpeUtils.MergePairAsWritten | src/tokenizer/utils.py:15-29 | as written: IndexError exactly when the scan reaches a last entry equal to pair[0], otherwise the merge |
| BpeUtils.CrashesAt | src/tokenizer/utils.py:22-23 | how the crash condition follows the scan position |
| BpeUtils.CrashesIff | src/tokenizer/utils.py:23 | only a last entry equal to pair[0] can crash; for a pair of two different ids such a last entry always does |
| BpeUtils.MergePairIndexError | src/tokenizer/utils.py:23 | merge_pair([97,98,97,98,97], (97,98), 256) crashes where [256,256,97] is intended |
| BpeUtils.MergeExample | src/tokenizer/utils.py:19 | the docstring example [12,13,18,12,13], (12,13), 19 gives [19,18,19] |
| BpeUtils.MergedIdentity | src/tokenizer/utils.py:22-28 | without an occurrence of the pair the list comes back unchanged |
| BpeUtils.MergedShorter | src/tokenizer/utils.py:23-25 | with an occurrence the list gets strictly shorter |
| BpeUtils.MergedLength | src/tokenizer/utils.py:22-28 | with a fresh token, each occurrence of the new token replaced two ids: the length plus the number of new tokens is the input length |
| BpeUtils.MergedFlat | src/tokenizer/tokenizer.py:38-40 | when vocab[t] = vocab[a] + vocab[b], merging keeps the bytes the list stands for |
| BpeUtils.MergedKeepsAbsent | src/tokenizer/utils.py:41 | after a merge neither the merged pair nor an absent pair occurs, unless it contains the new token |
| BpeUtils.Range | src/tokenizer/utils.py:33 | list(range(n)) is 0, ..., n−1 |
| BpeUtils.ConsecutivePut | src/tokenizer/utils.py:43-44 | storing a new pair under the next id keeps merges consecutive from 256 in insertion order |
| BpeUtils.ReplayStep | src/tokenizer/utils.py:41 | replaying one more merge applies merge_pair with its id |
| BpeUtils.GreedyStep | src/tokenizer/utils.py:38-41 | a chosen pair extends the greedy merge list |
| BpeUtils.TrainStart | src/tokenizer/utils.py:33-36 | the loop invariant holds for the bytes and no merges |
| BpeUtils.TrainStep | src/tokenizer/utils.py:37-44 | a pair present in the list is new to the merges, and merging it keeps the loop invariant |
| BpeUtils.StopsWhenUnique | src/tokenizer/utils.py:40 | a top count of 1 means no pair repeats |
| BpeUtils.RepeatedChosen | src/tokenizer/utils.py:39-41 | a top pair counted more than once is the one chosen, occurs, and merging leaves at least two tokens |
| BpeUtils.PairsExist | src/tokenizer/utils.py:39 | max has a key iff the list has two entries |
| BpeUtils.TrainRound | src/tokenizer/utils.py:37-44 | one round merges a new pair into the next id and keeps the training state |
| BpeUtils.TrainFinish | src/tokenizer/utils.py:37 | stopping at vocab_size gives the trained merges |
| BpeUtils.TrainUnique | src/tokenizer/utils.py:40 | stopping at a top count of 1 gives the trained merges |
| BpeUtils.TrainNoPair | src/tokenizer/utils.py:39 | an empty freqs dict only arises for a list shorter than two |
| BpeUtils.TrainLoopStep | src/tokenizer/utils.py:37-44 | one merge round leaves the loop's outcome unchanged |
| BpeUtils.TrainLoop | src/tokenizer/utils.py:37-46 | the training loop fails only with ValueError; on success the merges stay a well-formed dict that keeps every earlier merge, and the next id lies between the starting id and the vocabulary size |
| BpeUtils.TrainLoopTrained | src/tokenizer/utils.py:37-46 | from a reachable state the loop fails with ValueError iff the list is shorter than two with room for a merge, and otherwise ends with trained merges and next id 256 + |merges| |
| BpeUtils.TrainResult | src/tokenizer/utils.py:32-46 | train fails (ValueError of max) exactly for fewer than two ids with vocab_size > 256; otherwise merges are consecutive from 256, each the first most frequent pair of the list its predecessors left and seen twice there, at most vocab_size − 256 of them, none left in the final list, and fewer only when no pair repeats |
| BpeUtils.Train | src/tokenizer/utils.py:32-46 | the loop returns vocab = 0 .. new_token−1 and the merges of the training loop, or its error |
| Utf8.EncodeChar | src/tokenizer/utils.py:101 | one to four bytes by code-point range, lead byte and continuation bytes as section 3 of RFC 3629 lays out |
| Utf8.EncodeText | src/tokenizer/utils.py:101-102 | the encoding has at least one byte per character |
| Utf8.CodePoints | src/tokenizer/utils.py:58 | the code points of a string, one per character |
| Utf8.Decoded | src/tokenizer/utils.py:49-94 | a decoded text has at most one code point per byte, each at most U+10FFFF; the only errors are IndexError and ValueError |
| Utf8.Decode | src/tokenizer/utils.py:49-94 | the decoder's loop computes the decoded result |
| Utf8.StepAscii | src/tokenizer/utils.py:57-59 | a byte 0–127 is emitted as itself |
| Utf8.StepStray | src/tokenizer/utils.py:91-92 | a byte 128–191 or 248–255 is skipped alone |
| Utf8.TruncatedAt | src/tokenizer/utils.py:62-83 | a lead byte whose sequence runs past the end raises IndexError |
| Utf8.StepTwo | src/tokenizer/utils.py:62-69 | a two-byte sequence emits its code point, or is skipped whole when its continuation is out of range |
| Utf8.StepThree | src/tokenizer/utils.py:72-79 | a three-byte sequence emits its code point, or is skipped whole |
| Utf8.StepFour | src/tokenizer/utils.py:82-89 | a four-byte sequence emits its code point, is skipped whole, or raises ValueError above U+10FFFF |
| Utf8.AsciiIdentity | src/tokenizer/utils.py:57-59 | bytes 0–127 decode one for one |
| Utf8.DecodeChar | src/tokenizer/utils.py:54-89 | the encoding of one character decodes to its code point, whatever follows |
| Utf8.RoundTrip | src/tokenizer/utils.py:100-105 | decode(list(s.encode("utf-8"))) gives back the code points of s |
| Utf8.InvalidContinuationSkipped | src/tokenizer/utils.py:64-65 | [0xC3, 0x41, 0x42] decodes to [0x42]: the bad two-byte sequence is dropped whole |
| Utf8.OverlongDecoded | src/tokenizer/utils.py:62-70 | the overlong form C0 80 is decoded to 0, which RFC 3629 forbids |
| Utf8.SurrogateDecoded | src/tokenizer/utils.py:72-80 | ED A0 80 is decoded to the surrogate 0xD800, which RFC 3629 forbids |
| Utf8.TruncatedTail | src/tokenizer/utils.py:73 | a three-byte sequence cut short at the end raises IndexError |
| Utf8.BeyondUnicode | src/tokenizer/utils.py:87-88 | F7 BF BF BF makes chr raise ValueError |
| Tokenizer.ByteVocab | src/tokenizer/tokenizer.py:31 | ids 0–255, each mapped to its single byte |
| Tokenizer.FlatBytes | src/tokenizer/tokenizer.py:28-31 | a list of bytes stands for itself under the byte vocabulary |
| Tokenizer.MergeVocab | src/tokenizer/tokenizer.py:103-105 | the merge loop of _build_vocab yields ids 0–255 and more, or a KeyError |
| Tokenizer.MergeVocabFrame | src/tokenizer/tokenizer.py:104-105 | the id of a pair that is not iterated does not matter |
| Tokenizer.MergeVocabStep | src/tokenizer/tokenizer.py:104-105 | one more merge adds exactly its halves' bytes concatenated |
| Tokenizer.Inverse | src/tokenizer/tokenizer.py:52 | every inverse entry maps an id back to a key with that id, and every id has one |
| Tokenizer.InverseExact | src/tokenizer/tokenizer.py:52 | with one key per id, the inverse is exactly the inverse map |
| Tokenizer.WithSpecials | src/tokenizer/tokenizer.py:106-107 | special ids get their string's UTF-8 bytes, other ids keep theirs |
| Tokenizer.BuildVocab | src/tokenizer/tokenizer.py:101-108 | _build_vocab fails with KeyError iff the merge loop does, and otherwise maps ids 0–255 |
| Tokenizer.BuildVocabAfterTrain | src/tokenizer/tokenizer.py:101-108 | after train, _build_vocab gives back the trained vocabulary for every non-special id, exactly it without special tokens, and the UTF-8 bytes for special ids |
| Tokenizer.JoinVocab | src/tokenizer/tokenizer.py:58 | the join succeeds iff every id is in the vocabulary, giving the concatenated bytes, and otherwise raises KeyError |
| Tokenizer.JoinWithSpecials | src/tokenizer/tokenizer.py:62-71 | succeeds iff every id is in the vocabulary or special; otherwise ValueError; on success the bytes are the pieces of the ids in order, each a vocabulary entry or a special token's UTF-8 bytes, mixed lists included |
| Tokenizer.PiecesAppend | src/tokenizer/tokenizer.py:62-71 | the pieces of a concatenated id list are the concatenated pieces |
| Tokenizer.FlatAppend | src/tokenizer/tokenizer.py:58 | the bytes of a concatenated known id list are the concatenated bytes |
| Tokenizer.FlatCons | src/tokenizer/tokenizer.py:58 | a known list's bytes are its head's then its tail's |
| Tokenizer.PairKeys | src/tokenizer/tokenizer.py:77-79 | the keys min scans are the adjacent pairs, and there is one with two tokens |
| Tokenizer.Encoded | src/tokenizer/tokenizer.py:75-83 | the encoding is no longer than the bytes and, with two or more tokens, has no adjacent pair that is a merge |
| Tokenizer.EncodedFlat | src/tokenizer/tokenizer.py:75-83 | encoding keeps the bytes the tokens stand for |
| Tokenizer.ByteLevelStart | src/tokenizer/tokenizer.py:28-32 | the state before the loop: the bytes, no merges, the byte vocabulary |
| Tokenizer.VocabStep | src/tokenizer/tokenizer.py:40 | `vocab[t] = vocab[a] + vocab[b]` keeps the vocabulary in step with the merges |
| Tokenizer.AgreeStep | src/tokenizer/tokenizer.py:39-40 | the new id's bytes agree with the new merge, and the older ones still agree |
| Tokenizer.ByteLevelStep | src/tokenizer/tokenizer.py:38-41 | a merge round keeps the ids standing for the text's bytes |
| Tokenizer.TopKnown | src/tokenizer/tokenizer.py:40 | both halves of a pair of the list have byte strings, so the lookup cannot fail |
| Tokenizer.TokenizerLoopStep | src/tokenizer/tokenizer.py:34-41 | one merge round leaves the loop's outcome unchanged |
| Tokenizer.TokenizerLoop | src/tokenizer/tokenizer.py:34-41 | the tokenizer's loop fails only with ValueError or KeyError; on success the merges stay a well-formed dict keeping every earlier merge and the vocabulary keeps every earlier id |
| Tokenizer.TokenizerLoopAgrees | src/tokenizer/tokenizer.py:34-41 | the tokenizer's loop fails exactly when the utilities' loop does, makes the same merges, and keeps the byte-level state |
| Tokenizer.TrainFitted | src/tokenizer/tokenizer.py:21-45 | ValueError exactly for fewer than two bytes with vocab_size > 256; otherwise the merges of the utilities' train, greedy and consecutive, with vocab[t] = vocab[a] + vocab[b], the vocabulary _build_vocab rebuilds, and the merged text standing for the input bytes |
| Tokenizer.TrainTables | src/tokenizer/tokenizer.py:30-41 | the loop computes the tokenizer's training outcome |
| Tokenizer.AssignIds | src/tokenizer/tokenizer.py:164-167 | numbering the merge lines gives a well-formed dict |
| Tokenizer.AssignIdsConsecutive | src/tokenizer/tokenizer.py:164-167 | distinct merge lines come back as merges 256, 257, ... in file order |
| Tokenizer.AssignIdsStep | src/tokenizer/tokenizer.py:164-167 | one more distinct line extends the consecutive merges |
| Tokenizer.ReadSpecials | src/tokenizer/tokenizer.py:159-162 | the special lines give a well-formed dict |
| Tokenizer.ReadSpecialsDistinct | src/tokenizer/tokenizer.py:159-162 | special lines with distinct names come back in file order, each with its id |
| Tokenizer.SpecialLines | src/tokenizer/tokenizer.py:122-124 | save writes one line per special token, in dict order, with its id |
| Tokenizer.SpecialsRoundTrip | src/tokenizer/tokenizer.py:122-124 | reading back the special lines save wrote gives the same dict |
| Tokenizer.MergesRoundTrip | src/tokenizer/tokenizer.py:126-127 | consecutive merges, as train leaves them, survive save and load |
| Tokenizer.ReadModel | src/tokenizer/tokenizer.py:150-167 | the reading loops of load give the special tokens and the numbered merges |
| Tokenizer.ReadSpecialLines | src/tokenizer/tokenizer.py:159-162 | the special-token loop builds the special dict |
| Tokenizer.NumberMerges | src/tokenizer/tokenizer.py:164-167 | the merge loop numbers the lines from 256 on |
| Tokenizer.CegaTokenize.constructor | src/tokenizer/tokenizer.py:14-19 | all four tables start empty |
| Tokenizer.CegaTokenize.Train | src/tokenizer/tokenizer.py:21-45 | AssertionError below 256; otherwise the training outcome on the UTF-8 bytes of the text, stored in merges and vocab; the fields change only on success |
| Tokenizer.CegaTokenize.RegisterSpecialTokens | src/tokenizer/tokenizer.py:48-52 | stores the dict and its inverse |
| Tokenizer.CegaTokenize.Decode | src/tokenizer/tokenizer.py:54-73 | the joined bytes: without special tokens KeyError for an unknown id, with them ValueError for an id neither in the vocabulary nor special; with special tokens the bytes are the pieces of the ids, so special and ordinary ids mix |
| Tokenizer.CegaTokenize.DecodeAppend | src/tokenizer/tokenizer.py:54-73 | a concatenated id list decodes iff both parts do, to the concatenation of their bytes |
| Tokenizer.CegaTokenize.EncodeNoSpecial | src/tokenizer/tokenizer.py:75-83 | the loop computes the greedy lowest-id merging of the text's UTF-8 bytes |
| Tokenizer.CegaTokenize.EncodeDecode | src/tokenizer/tokenizer.py:54-83 | when the vocabulary agrees with the merges, decoding what encode_no_special made of a text gives back its UTF-8 bytes |
| Tokenizer.CegaTokenize.Load | src/tokenizer/tokenizer.py:146-170 | merges numbered from 256 in file order and special tokens in file order, then the vocabulary _build_vocab makes; its KeyError leaves the vocabulary as it was |

## Left out

- Sockets: the accept/read/send loop of `serveRandomWalks` and the client program's connection are left out. Only the request parse, the client's request line and the buffer the request passes through are modelled.
- Threads, `std::mutex`/`lock_guard` and the `std::atomic` walk counter are left out. The shard split is modelled; each shard's walks are generated sequentially.
- `runParallelRandomWalks` passes `std::ref(threadNodes)` to a thread although the vector is destroyed at the end of the loop iteration. This lifetime defect is outside a sequential model.
- `std::mt19937`, `std::random_device` and time-based seeding are left out. The generator is the oracle `Random.Rng`. The node shuffles (`std::shuffle` at data_loading/random_walker.cpp:393 and :518) are modelled as a Fisher-Yates shuffle driven by the oracle (Random.Shuffle); how many generator outputs `std::shuffle` really consumes is not modelled.
- WalkSampler.ChooseEdge: shuffling the edge indices and taking the first (data_loading/random_walker.cpp:134-139) is modelled as one uniform draw. How many generator outputs `std::shuffle` consumes there is not modelled; the set of walks over all streams is the same.
- Timing and logging are left out: `getCurrentTimestamp`, `formatDuration`, the progress and rate messages, and the warnings of `generateDistinctWalks`.
- The float `sampleRate` is a rational `GraphStore.Rate`.
- NodeScheduler.NodeManager.AfterReset: the test `usedNodes.size() >= allNodes.size() * 0.9` is written as 10·|used| ≥ 9·|all|. This ignores the rounding of the floating-point product.
- DistinctWalks.GenerateDistinctWalks: `numWalks * maxAttemptsPerWalk` and `numWalks * 2` are unbounded integers. 32-bit overflow for numWalks above about 2·10^8 is not modelled.
- DistinctWalks.GenerateDistinctWalks: the attempt and duplicate counts are reported as ghost outputs, because the source keeps them local.
- `generateDistinctWalks` has no caller among the modelled operations; it is modelled on its own.
- File I/O is left out:
  - opening and reading the triple file (the line loop is a fold over a sequence of lines);
  - the output file (a character sequence);
  - the `.model` and `.vocab` files of the tokenizer.
- The tokenizer's model file is its content, `Tokenizer.ModelFile`, rather than its text format:
  - The version and pattern lines are not modelled.
  - A special token containing white space would break `split()` in `load`. The model assumes each special line yields a name and an id.
- The `.model` suffix assertion of `load` is not modelled.
- The `.vocab` file and `render_token` are left out. `tokenizer.py` imports `render_token` from `utils.py`, which does not define it, so the import itself fails; the model ignores the import.
- The `pattern` field is left out.
- ParallelRunner.SplitShards: a thread count of 0 (reachable through `-t 0`, read with `atoi` at data_loading/random_walker.cpp:743) divides by zero at line 427, which is undefined behaviour in C++. The precondition excludes it, and the model does not describe that crash.
- Request.ReceiveRequestAsWritten: a 1024-byte message leaves no NUL in the buffer, and `std::string(buffer)` then reads past the array. The precondition limits messages to the buffer, and the out-of-bounds read is not modelled.
- The hard-coded output path of the server is left out.
- `bytes.decode("utf-8", errors="replace")` at the end of `decode` is left out. Tokenizer.CegaTokenize.Decode returns the joined bytes.
- `encode(include_special=True)` with its `regex.split` is left out. `encode` without special tokens is `encode_no_special`, which is modelled.
- `show_tokens` (ANSI colour printing) is left out.
- `processWalks`, `writeWalkToCSV`, `benchmarkRandomWalks` and the command-line `main` of both C++ files are left out.
- The `main` demo of `utils.py` is left out; its round trip is Utf8.RoundTrip.
- `code/rdf_encoder.py` is not part of this model.
- Utf8.Decoded returns code points as integers rather than a Python `str`. `chr` accepts surrogate code points, so the result may hold values that Dafny's `char` cannot.

**Behaviour of the code worth knowing**

- A start node with a single path and 5 requested walks yields 2 walks (DistinctWalks.GenerateDistinctWalks):
  - the first attempt is accepted;
  - at attempt 12 the duplicate count 11 exceeds 10;
  - 1 < 5 / 2, so one duplicate is added.
- `walkToString` puts a ',' after every token without escaping. Tokens containing ',' can give two different walks the same key (WalkFormat.KeyCollision), so de-duplication by key is exact only for comma-free tokens.

## Findings

| source | as written | input that shows it | evidently intended | confidence | as-written member | corrected member |
|---|---|---|---|---|---|---|
| src/tokenizer/utils.py:23 | `ids[pos+1]` is read before `pos < len(ids) - 1` is tested, so a last entry equal to `pair[0]` raises `IndexError` | `merge_pair([97, 98, 97, 98, 97], (97, 98), 256)`, reached by training on the text "ababa" | test the bounds first and copy the last entry: `[256, 256, 97]` | high, not executed | BpeUtils.MergePairAsWritten, BpeUtils.MergePairIndexError | BpeUtils.MergePair |
| data_loading/random_walker.cpp:594 | the request is the whole reused 1024-byte buffer up to its first NUL, not the `valread` bytes just read, so a shorter request keeps the tail of a longer earlier one | "GET_RANDOM_WALKS 100 20", then "GET_RANDOM_WALKS 5" on the next connection: the second parses as 500 walks of length 20 | build the request from the bytes read: 5 walks of the default length | high, not executed | Request.ReceiveRequestAsWritten, Request.StaleBufferRequest | Request.ReceiveRequest, Request.ServeRequests |

The rest of the model uses the corrected members. Both training loops and `encode_no_special` merge with the corrected `MergePair`, so the `IndexError` is not reachable through them in the model, and the server loop builds each request from its own message.
