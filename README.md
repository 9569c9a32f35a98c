# Citation-network simulator and inheritance analysis, in Dafny

This project models the core of a Python 2 research code base. The code
grows a patent citation network generation by generation and gives every
patent a set of keywords (its "phenome"). It then analyses the finished
network: it computes each patent's ancestors and descendants, counts the
keywords passed from a cited parent to a citing child, and prepares real
networks for drawing. The model proves properties of each part:

- `sampler.dfy` (module `Sampler`) covers rwg.py and its copy
  `RandomWeightedGenerator` in neutral-model.py. `generate` expands a
  multinomial draw into a list of indices and shuffles it; `old_generate`
  inverts a cumulative weight distribution.
- `patents.dfy` (module `Patents`) covers the citation simulator of
  patents.py and of neutral-model.py. The class `Simulator` holds the
  count array that is updated in place, the buffered rows, the pool and
  the aging list. It covers `citing`, `generation`, `next_generation`,
  `form_patents` and the `update_weights` of each attachment rule.
- `keywords.dfy` (module `Keywords`) covers the trait assigner
  `Keywords`, in keywords.py and the identical copy in neutral-model.py.
- `phylogeny.dfy` (module `Phylogeny`) covers the two passes of
  `get_phylogenies`:
  - the forward ancestor pass;
  - the reverse descendant pass, including its aliasing of
    `descendents` and `direct_descendents`.
  Both passes compute the transitive closures. `b` is a descendant of
  `a` exactly when `a` is an ancestor of `b`.
- `analysis.dfy` (module `Analysis`) covers the class `NetworkAnalysis`:
  `get_surviving_keywords`, `first_degree_chains` with its counters, and
  `get_phylogenies`.
- `realdots.dfy` (module `RealDots`) covers the helpers of real_dots.py:
  `gens_by_pno`, `shared_traits`, `top_n_words`, `trim_sorted_text` and
  `flatten_text`.
- `collections.dfy` (module `Collections`) holds shared facts: `sum` of a
  list, `set(xs)`, `list(s)` of a set, and total lengths.

Every random draw is a parameter of the operation that makes it:

- parent counts;
- pools of ids or keyword ids;
- the bounds that `randint` redraws;
- multinomial samples;
- shuffle picks;
- the uniform number of `old_generate`.

Each operation's precondition states what the random source can return.
A finite supply of draws adds one outcome that the source does not have:
`NoMoreDraws`.

Behaviour of the code worth knowing:

- A record of generation 1 has at most one parent, whatever `num_parents`
  is. `citing` stops once the set has `now_forming // gen_len` members,
  and that quotient is 1 throughout generation 1
  (`Patents.Simulator.Citing`).
- The surviving keywords are not those of the last `gen_len` records.
  `phenomes[-0]` is the first record, so the union covers record 0 and the
  last `gen_len - 1` records (`Analysis.SurvivingReadsFirstRecord`,
  `Analysis.SurvivingIsNotLastGeneration`).
- The keyword pool is never refilled when it runs low. The guard
  `self.pool < self.num_traits*5` compares a list with an integer, which is
  always false in Python 2. A new pool comes only after every record `i`
  with `i % gen_len == 0`, and a pool that runs dry raises `IndexError`.
- The trait loop redraws its bound at every check. A phenome has between
  `min_traits` and `max_traits` keywords, not exactly one drawn count.
  With `avg` the trait bounds are `min_traits` and
  `(num_traits - min_traits) * 2`. Their midpoint is `num_traits` only when
  `min_traits` is 0, so `num_traits == 1` gives phenomes of 0 to 2
  keywords, not exactly 1.
- `inheritance_interactions_colored` gets one `(child, keyword)` pair per
  inheriting edge. It holds the last keyword the loop visited, not one
  pair per keyword.
- In neutral-model.py the reverse descendant pass sits inside a string
  literal, so every descendant set stays empty.

## Model

| member | source | states |
|---|---|---|
| Sampler.ExpandedCount | rwg.py:15-18 | in the list built before shuffling, index `i` occurs exactly `samples[i]` times and no other value occurs |
| Sampler.ExpandedLength | rwg.py:14-18 | the list built before shuffling has `sum(samples)` entries |
| Sampler.Instances | rwg.py:15-18 | the nested loops of `generate` build exactly the expansion of `samples`: index 0 `samples[0]` times, then index 1, and so on |
| Sampler.ShuffledFromPermutes | rwg.py:19 | the Fisher–Yates exchanges of `shuffle` keep every value's number of occurrences |
| Sampler.Shuffle | rwg.py:19 | the in-place shuffle leaves the array as the exchanges prescribe, for any picks `0 <= picks[i] <= i` |
| Sampler.Generate | rwg.py:13-20 | `generate(n, probs)` returns `n` indices; index `i` occurs exactly `samples[i]` times; every index is in range and has non-zero probability |
| Sampler.OldGenerate | rwg.py:6-11 | `old_generate` returns the first index whose running total exceeds `random() * sum`, or `None` when no running total does |
| Sampler.FirstAboveInterval | rwg.py:6-11 | with non-negative weights the answer is `i` exactly when the threshold lies in `[total before i, total up to i)` |
| Sampler.FirstAboveNone | rwg.py:6-11 | with non-negative weights the fall-through `None` happens exactly when the threshold reaches the total weight |
| Sampler.OldGenerateFindsIndex | rwg.py:6-11 | with non-negative weights, `sum` equal to their positive total and `0 <= random() < 1`, the threshold `random() * sum` makes `old_generate` always return an index, and one of positive weight |
| Patents.ParentBounds | patents.py:22-28 | the parent-count bounds average `num_parents`; with 'ave' the lower bound is `min_parents`; with any other `dist` both bounds equal `num_parents` |
| Patents.InitialAging | patents.py:215-219 | the aging list starts as `gen_len` ones (patents.py) or `num_parents` seeds (neutral-model.py `Aging`) |
| Patents.AgingAfterAt | patents.py:231-235 | after `k` front insertions, generation `g < k` has the coefficient of age `(k - g) * gen_len` |
| Patents.AgingIndexed | patents.py:227 | `aging_coefficients[i // gen_len]` is in range for every formed record `i` and is the coefficient of its generation's age |
| Patents.WeightPositive | patents.py:227 | every weighted rule gives every record a weight that is positive once its coefficient is |
| Patents.InDegreeSum | patents.py:156-166 | the in-degrees of all records add up to the number of parent entries over all rows |
| Patents.CitesEarlierIdsOnly | patents.py:113-117 | a record that cites only earlier generations cites only smaller ids of earlier generations, so the graph is acyclic |
| Patents.ParentageStart | patents.py:87-99 | generation 1 (no parents, zero counts) satisfies the parentage/count invariant |
| Patents.ParentageAppend | patents.py:156-162 | one citing keeps the invariant: the counts of its distinct parents of earlier generations go up by one |
| Patents.ParentageSum | patents.py:156-166 | under the invariant `sum(citation_count)` equals the number of parent entries |
| Patents.DrawParents | patents.py:142-154 | the pop loop ends with `min(x, now_forming // gen_len)` parents, which are the ids popped (from the pool's end, refills in order); it raises on an empty pool or stops when the draws run out |
| Patents.UniformPoolEarlier | patents.py:191-195 | `randint(0, upper_bound)` draws exactly the ids of the generations before the one being formed |
| Patents.CompletedRunFits | patents.py:107-111 | a run of a count-reading rule completes only when `num_records % gen_len` is 0 or 1 |
| Patents.Simulator.constructor | patents.py:11-46 | `__init__` sets the bounds by `ParentBounds`, zero counts, empty weights and the initial aging list |
| Patents.Simulator.UpdateWeights | patents.py:221-229 | `update_weights` inserts the new coefficient at the front and lists `now_forming` weights `(1 + count ** e) * coefficient`; it raises `IndexError` exactly when a count-reading rule runs past `num_records`, and then the weights are as they were |
| Patents.Simulator.FirstCountsAndParentage | patents.py:87-99 | generation 1 is written as `gen_len` empty rows and `gen_len` zero count rows, the buffers are cleared and the first pool is in place |
| Patents.Simulator.Citing | patents.py:132-162 | `citing` raises `ValueError` exactly on an empty `randint` range; otherwise it appends one row of `min(x, now_forming // gen_len)` popped parents, raises each of their counts by one (so the count total grows by the row's length), appends the count list itself and advances `now_forming` |
| Patents.Simulator.RecordParents | patents.py:156-162 | the parents' counts go up by one, the row and the count list object are appended, `now_forming` advances and the invariant holds |
| Patents.Simulator.UpdateCounts | patents.py:164-166 | `update_count` for each distinct parent adds one to exactly those counts |
| Patents.Simulator.NextGeneration | patents.py:121-130 | the buffered rows are written, each count row showing the counts at the close of the generation; the buffers are cleared, the weights updated, the new pool installed and `gen_num` advanced |
| Patents.Simulator.WriteGeneration | patents.py:123-125 | `gen_len` copies of the current counts are written, the buffered parent rows are written in order, both buffers are emptied and the record history is unchanged |
| Patents.Simulator.Generation | patents.py:113-119 | `generation` forms `gen_len` records: `now_forming` advances by `gen_len` and `gen_num` by one; the rows and count rows written before are kept, and each new row `k` has `min(max(parent_counts[k], 0), gen_num)` parents; each new count row shows the counts at the close of the generation; the next pool is the one drawn, and the weights are kept (uniform rule) or recomputed for every formed record (weighted rules) |
| Patents.Simulator.CiteGeneration | patents.py:116-117 | the `citing` loop of `generation` runs exactly `gen_len` times, and the row of record `k` has `min(max(parent_counts[k], 0), gen_num)` parents |
| Patents.Simulator.CiteRecord | patents.py:116-117 | one `citing` of the loop appends one row, of the size its parent count asks for capped at `gen_num` (`now_forming // gen_len`), and advances `now_forming` by one |
| Patents.Simulator.FormPatents | patents.py:204-208 | `form_patents` ends with whole generations, every row written, and `sum(citation_count)` equal to the number of citations; a count-reading rule with `gen_len > num_records` raises `IndexError`; generation 1's rows are empty and the row of record `k` of each later generation `g` has `min(max(x, 0), g)` parents, `x` being the parent count drawn for it |
| Patents.Simulator.FormGenerations | patents.py:107-111 | the generations run while `now_forming + 1 < num_records` and the run ends in the formed state; the rows written before are kept, and the rows written after them have the sizes the draws of each generation ask for, capped at its `gen_num` |
| Patents.Simulator.RunGenerations | patents.py:110-111 | the `while` loop of `form_patents` stops at the first whole generation whose end reaches `num_records - 1`, and each generation it formed wrote rows of the sizes its draws ask for |
| Keywords.TraitBounds | keywords.py:18-23 | with `avg` the bounds are `min_traits` and `(num_traits - min_traits) * 2` (midpoint `num_traits` only when `min_traits` is 0); without it both are `num_traits` |
| Keywords.FillTraits | keywords.py:87-90 | the trait set holds the ids popped from the pool's front, one per check it failed; the loop stops at the first check whose drawn bound the set has reached (`StopsAt`), and then the set has `min_traits` to `max_traits` members; it raises on an empty range or an empty pool |
| Keywords.StopsAtUnique | keywords.py:87-90 | the pool and the bounds drawn fix how many ids the trait loop pops |
| Keywords.RefillsAfterClosed | keywords.py:94-95 | a new pool is drawn after `ceil(i / gen_len)` of the first `i` records |
| Keywords.Keywords.constructor | keywords.py:12-48 | `__init__` without a keywords file sets the bounds by `TraitBounds` and empty `probs` and phenomes |
| Keywords.Keywords.NewPool | keywords.py:97-105 | `new_pool` raises exactly when `num_keywords` is 0 and otherwise installs the drawn pool |
| Keywords.Keywords.AssignKeywords | keywords.py:80-95 | `assign_keywords` appends one phenome per record, each of `min_traits` to `max_traits` keyword ids, drawing `ceil(num_records / gen_len)` new pools; it raises `ValueError` exactly when `num_keywords` is 0 (leaving pool and phenomes as they were), or when there is a record to assign and the trait range is empty, and raises `IndexError` when a pool runs dry; record `i`'s phenome is the set of the ids it popped from the front of the pool it read, stopping at the first check its drawn bounds say it meets; the first pool is the one drawn first, and the pool after record `i` is the rest of that pool, or the next refill when `i % gen_len == 0`; a completed run leaves the pool of the last record, a pop from an empty pool leaves it empty |
| Keywords.Keywords.AssignRecords | keywords.py:83-95 | the loop over the records appends the phenomes in order, each the set of ids popped from the front of the pool it read up to the first check its drawn bounds say it meets, and switches to the next refill after every record `i` with `i % gen_len == 0`; a completed loop has assigned `num_records` phenomes, drawn `ceil(num_records / gen_len)` pools and left the pool of the last record |
| Keywords.Keywords.AssignRecord | keywords.py:84-95 | one record: the trait loop pops the front of the pool up to the first check its drawn bounds say it meets, and unless it raised the phenome of the popped ids is appended and the pool is the rest, or for `i % gen_len == 0` the next refill; a failed record appends nothing and leaves the pool without the ids popped, empty after a pop from an empty pool |
| Phylogeny.Ancestors | networkanalysis.py:101-111 | the forward pass computes the ancestor sets `AncestorSets` |
| Phylogeny.AncestorStep | networkanalysis.py:109-111 | one child's entry becomes its parents joined with their ancestor sets as they are at that moment |
| Phylogeny.AncestorPassSettled | networkanalysis.py:108-111 | a record's entry is final once the pass has handled it |
| Phylogeny.AncestorFixpoint | networkanalysis.py:108-111 | with parents of smaller ids, each ancestor set is its parents joined with their ancestor sets |
| Phylogeny.AncestorsAreChains | networkanalysis.py:108-111 | `a` is an ancestor of `b` exactly when a citation chain leads from `b` to `a` |
| Phylogeny.AncestorsEarlier | networkanalysis.py:108-111 | ancestors have smaller ids, and a parent's ancestors are its child's ancestors |
| Phylogeny.ChainDescends | networkanalysis.py:108-111 | along a citation chain the ids strictly decrease |
| Phylogeny.DirectDescendants | networkanalysis.py:114-117 | `direct_descendents[p]` lists exactly the records citing `p`, once each |
| Phylogeny.AppendChild | networkanalysis.py:116-117 | one pass of the inner loop appends `child` to the list of each of its distinct parents and to no other list |
| Phylogeny.JoinInto | networkanalysis.py:126-128 | through the aliased lists, `descendents[parent]` becomes `direct_descendents[parent]` joined with its children's current sets |
| Phylogeny.ReversePass | networkanalysis.py:124-128 | the reverse pass over the aliased list computes the descendant sets `DescendantSets` |
| Phylogeny.SetsToLists | networkanalysis.py:131 | each set becomes a list holding its members once each |
| Phylogeny.Descendants | networkanalysis.py:113-131 | `descendents[p]` lists each descendant of `p` once |
| Phylogeny.DescendantFixpoint | networkanalysis.py:122-128 | with parents of smaller ids, each descendant set is its citers joined with their descendant sets |
| Phylogeny.DescendantsAreChains | networkanalysis.py:122-128 | `b` is a descendant of `a` exactly when a citation chain leads from `b` to `a` |
| Phylogeny.DescendantIffAncestor | networkanalysis.py:101-134 | `b` is a descendant of `a` exactly when `a` is an ancestor of `b` |
| Analysis.SurvivingReadsFirstRecord | networkanalysis.py:92-99 | the surviving keywords are those of record 0 and the last `gen_len - 1` records |
| Analysis.SurvivingIsNotLastGeneration | networkanalysis.py:95-96 | a keyword only record 0 has can survive although the last generation lacks it |
| Analysis.SurvivingFromPhenomes | networkanalysis.py:92-99 | every surviving keyword is a keyword of some record |
| Analysis.OnlySurvivingCounted | networkanalysis.py:69-76 | only surviving keywords are ever counted as inherited |
| Analysis.TraitHitsConserved | networkanalysis.py:72-76 | counting inherited keywords per keyword gives the total number inherited |
| Analysis.InheritedCountConserved | networkanalysis.py:72-73 | counting inherited keywords per parent gives the same total |
| Analysis.CountersStep | networkanalysis.py:68-79 | an inheriting edge raises the parent's count by the number of shared keywords, appends one entry to each of its interaction lists and raises each shared keyword's count by one |
| Analysis.CountersStepEmpty | networkanalysis.py:69-72 | an edge that shares no surviving keyword changes no counter |
| Analysis.CountersTotal | networkanalysis.py:60-79 | after all edges, `sum(trait_count)` grew by exactly `sum(inheritance_count)` |
| Analysis.NetworkAnalysis.constructor | networkanalysis.py:9-26 | `setup` gives zero trait counts for every keyword and the phylogenies of the parentage: the ancestor sets are the closures, and the descendant lists hold each descendant closure once each, or are all empty in neutral-model.py |
| Analysis.NetworkAnalysis.GetPhylogenies | networkanalysis.py:101-134 | the ancestor sets are the closures; the descendant lists hold the descendant closures once each (every descendant set stays empty in neutral-model.py) |
| Analysis.NetworkAnalysis.GetSurvivingKeywords | networkanalysis.py:92-99 | the union of `phenomes[-i]` for `i < gen_len`; raises `IndexError` exactly when an index falls outside the list |
| Analysis.NetworkAnalysis.UpdateTraitCount | networkanalysis.py:81-82 | the keyword's count goes up by one and nothing else changes |
| Analysis.NetworkAnalysis.FirstDegreeChains | networkanalysis.py:60-79 | every counter is the edge-by-edge count of inherited surviving keywords, added to the trait counts already there; `sum(trait_count)` grows by `sum(inheritance_count)`; raises exactly when `get_surviving_keywords` does, after the counters were reset |
| Analysis.NetworkAnalysis.ChainRow | networkanalysis.py:66-79 | the edges of one child, in row order, extend the counters |
| Analysis.NetworkAnalysis.ChainEdge | networkanalysis.py:68-79 | one edge leaves the counters as `Advance` prescribes: unchanged when parent and child share no surviving keyword, otherwise the parent's count raised by the number shared, one entry appended to each of its interaction lists (the coloured one naming the child and a shared keyword) and each shared keyword's count raised by one |
| Analysis.NetworkAnalysis.CountKeywords | networkanalysis.py:74-76 | each shared keyword's count goes up by one, and the pair recorded is the child with one of them |
| RealDots.FirstIsMin | real_dots.py:142-144 | the front of `sorted(just_nodes)` is the smallest node |
| RealDots.GensByPno | real_dots.py:141-160 | the groups joined end to end are `sorted(just_nodes)`; the first is the smallest node alone, the middle ones have `width` nodes and the last has at most `width`, being empty exactly for a single node; an empty list raises, and the loop never ends exactly when `width < 1` and more than `width` nodes follow the first, which includes a single node with a negative width |
| RealDots.GroupRest | real_dots.py:146-158 | after the first node, the groups join to the remaining nodes, all but the last have `width` nodes, the last has at most `width` and is empty exactly when no node remained |
| RealDots.FullGroups | real_dots.py:146-151 | the full rows popped while more than `width` nodes remain each hold `width` nodes, join with what is left to the input, and leave at most `width` nodes, none only when there were none |
| RealDots.PopFront | real_dots.py:147-149 | `n` pops from the front move exactly the first `n` nodes into the group, in order |
| RealDots.SharedTraits | real_dots.py:126-139 | `True` exactly when both records' word lists share a word; `KeyError` for a missing record or `'words'`; `False` when a `'words'` is `None` |
| RealDots.SharedTraitsSymmetric | real_dots.py:126-139 | for two records with word lists the answer does not depend on their order |
| RealDots.Tagged | real_dots.py:17-21 | every entry is tagged with its own key under `keylabel` and nothing else in it changes |
| RealDots.FlattenText | real_dots.py:14-23 | the list holds each entry of the mapping once, tagged with its key, and the mapping's entries are tagged in place |
| RealDots.SliceEnd | real_dots.py:187 | `[0:n]` keeps `min(n, len)` entries, or all but the last `-n` when `n` is negative |
| RealDots.TakeWords | real_dots.py:187-190 | the `'word'` fields of `bow[0:n]`, in order; `KeyError` exactly when one of those entries lacks the field |
| RealDots.TaggedWordsAreKeys | real_dots.py:179-190 | the words taken from the flattened text are distinct words of the text |
| RealDots.TopNWords | real_dots.py:172-190 | with `'sorted_text'` the first `n` words in order; otherwise the text is tagged in place and the answer is `None` exactly when a `'tf-idf'` is missing, else distinct words of the text (the sorted list is discarded); `KeyError` without either key |
| RealDots.TrimStep | real_dots.py:165-167 | one record's result is either the `KeyError` or its trimmed form |
| RealDots.TrimSortedText | real_dots.py:163-169 | every record's `'words'` is set to its top words, the text tagged where it was flattened and nothing else changed; it raises exactly when some record does |
| RealDots.SharedTraitsAfterTrim | real_dots.py:126-139 | after a finished trim, `shared_traits` never raises on two records and answers whether their word lists overlap |

## Left out

- Floating point:
  - The normalisation of weights into probabilities is left out (`update_weights` of the base class, `define_weights`).
  - The aging coefficients are kept symbolic: the model records which power each coefficient is, not its value.
  - `tf-idf` scores matter only by being present.
- File and console output is not modelled: opening, writing and closing the csv files, `output_path`, `write_count`, `write_phenomes`, `write_inheritance_count` and every `print`. The written rows are kept as sequences.
- The csv readers `define_parentage`, `define_phenomes` and `define_progeny_count` are not modelled. Their results are inputs.
- Graphviz and dot rendering is not part of this model: `write_dot`, `dot_for_graphviz`, `genealogy_dot`, `all_dot`, `dot_for_hiver`, `grid`, `pyramid` and `colors_for_graphviz`. The same holds for matplotlib `LineGraph`, the `Testing` driver and the module-level run blocks.
- real_networks.py reads a MongoDB collection over the network and is not part of this model.
- maxmed.py and testing.py are driver scripts that write files, and are not part of this model.
- `percent_inheritance`, `inheritance_average_random` and `inheritance_average_related` are floating-point statistics and are not modelled.
- `get_top_keywords` reads `keyword_count`, which no code sets, and is not modelled.
- Random draws are parameters, restricted to what numpy's and Python's generators can return. `NoMoreDraws` only means the supplied draws ran out.
- patents.py's `Uniform.new_pool` calls `randint`, which patents.py never imports. rwg.py's `old_generate` calls `random`, which rwg.py never imports. Both raise `NameError`. The model gives them the behaviour of the neutral-model.py copies, which do import these.
- The `Uniform` prelude draws a pool that `first_counts_and_parentage` replaces at once. The model draws only the pool that is used.
- The keywords-file branch of `Keywords` is not modelled. `define_weights` opens that file for writing, and `new_pool` reads `self.weights`, which is never set.
- Patents.Simulator.FormPatents, Patents.Simulator.FormGenerations, Patents.Simulator.RunGenerations and Patents.Simulator.Generation state the size of every row written, not which ids it holds. Which pool ids a row's parents are is stated per record by Patents.Simulator.Citing and Patents.DrawParents. The count rows of earlier generations are stated only by Patents.Simulator.Generation for its own generation.
- Patents.Simulator.Citing: the order of the parentage row (`list(parents)`) is left open. The contract states its members and its length.
- Phylogeny.Descendants: the order of each descendant list (`list(frozenset)`) is left open. The contract states its members and that none repeats.
- Analysis.NetworkAnalysis.CountKeywords: the keyword in `child_and_keyword` is the last one visited in the set's iteration order. That order is left open, so the contract says only that it is one of the shared keywords.
- Phylogeny.Ancestors, Phylogeny.DirectDescendants, Phylogeny.Descendants, Analysis.NetworkAnalysis.constructor and Analysis.NetworkAnalysis.GetPhylogenies require `ValidIds`: every parent id is a record id in `[0, len(parentage))`. The source raises `IndexError` for a parent id at or above `len(parentage)` (networkanalysis.py:110, 116) and wraps a negative id to the end of the list. The simulator never writes such ids, so these paths are not modelled.
- Sampler.OldGenerate and Sampler.Generate: weights, probabilities and the uniform number are exact reals. The source uses floats, and `rnd -= w` rounds at each step (rwg.py:7-10), so near the top of the range the float loop can fall through and return `None` where the exact model returns an index (Sampler.OldGenerateFindsIndex holds for exact arithmetic only); likewise numpy's multinomial may see probabilities that do not sum exactly to 1.
- Patents.WeightOf: the exponent `cites_exp` of the count-reading rule is a natural number. The source accepts any number in `citation_count[i] ** cites_exp` (patents.py:227); a fractional exponent gives a float weight, and a negative one on a zero count raises `ZeroDivisionError`.
- Analysis.NetworkAnalysis.FirstDegreeChains: parent ids must be record ids, `phenomes` must cover every record, and keywords must index `trait_count`. Otherwise the source raises `IndexError`, or wraps negative indices.
- Patents.Simulator.constructor: `gen_len >= 1` is required. The constructor itself never divides by `gen_len`. With `gen_len` 0 the uniform rule's `new_pool` raises `ZeroDivisionError` at `now_forming % gen_len` (patents.py:194). The count-reading rule with a non-positive `age_exp` (the default is -1.45) divides nowhere: `update_aging_coefficients` computes `0 ** -age_exp` (patents.py:235), which raises only for a positive `age_exp`, `update_weights` ranges over `range(0)` (patents.py:227), and the guard of `generation` is `(gen_num + 1) * 0 > now_forming`, which is always false, so `citing` is never called and the loop of `form_patents` (patents.py:110) never ends.
- Keywords.Keywords.constructor: `gen_len >= 1` is required. The constructor itself never divides by `gen_len`. With `gen_len` 0, `assign_keywords` raises `ZeroDivisionError` at `i % gen_len` (keywords.py:94) once the first record has its traits.
- RealDots.GensByPno receives the list `sorted(just_nodes)` as a parameter. That list is the sorted permutation of the input.
- RealDots.GensByPno stops with `Diverges` where the source loops forever.
- RealDots.TopNWords: only whether a `'tf-idf'` score is missing is modelled, not the order of the sort, because the sorted list is discarded.
- RealDots.TopNWords assumes the entries of a record's `'text'` are distinct dictionaries. Aliasing between them is not modelled.
- Python 2 semantics are assumed throughout: a list compared with an integer, `map` returning a list, and `except A, B` binding its second name.
