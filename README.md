# A verified model of the word-game engine in `main.c`

`main.c` runs a Wordle-like game over a dictionary of words that all have
one length, fixed at start-up. The dictionary is an unbalanced binary search
tree ordered by `strcmp`. A game has a secret word and a number of guesses.
Each guess that is in the dictionary is marked position by position:

- `+` where the guess and the secret agree;
- `|` where the letter occurs elsewhere in the secret, in an unused position;
- `/` where it does not.

What the marks reveal is stored in four global tables:

- `here`: letters known per position;
- `not_here`: letters excluded per position;
- `min_times`: a lower bound on each letter's count;
- `exact_times`: each letter's count, once it is known.

`rispetta_filtro` tests a word against these tables. The words that pass are
kept in a second tree, the candidate tree. On each counted guess it is
rebuilt height-balanced: the passing words are pushed, in order, onto a
temporary list, and `list_to_bst` turns the list back into a tree.

The project models that core:

- **`words.dfy`**, module `Words`:
  - words as sequences of letters;
  - the sign of `strcmp` as `Cmp`, proved a strict total order;
  - letter counts.
- **`trees.dfy`**, module `Trees`:
  - a tree's abstract value: its word set and its in-order sequence;
  - unbalanced insertion;
  - the median-split tree `list_to_bst` builds;
  - ordering and sortedness, proved equivalent;
  - the height bound of the balanced tree.
- **`arena.dfy`**, module `Arena`:
  - the class `Bst`, one tree whose nodes live in an arena of `seq` fields, with `-1` for `NULL`;
  - `insert`'s trailing-pointer loop, `search`'s walk and `pulisci_albero`, proved against the abstract tree;
  - pure lemmas about links and frames.
- **`evaluation.dfy`**, module `Evaluation`:
  - the marks `confronto` prints, in closed form;
  - the facts the program relies on: `+` exactly where the words agree, `min(#c in g, #c in t)` letters `c` marked `+` or `|`, and left-to-right placement.
- **`constraints.dfy`**, module `Constraints`:
  - the tables as a value (`Knowledge`);
  - the test `rispetta_filtro` applies;
  - the change one guess makes (`Update`);
  - the ordered filtering of a word sequence (`Survivors`);
  - the theorem that the tables never exclude the secret word.
- **`filter.dfy`**, module `Filters`:
  - the class `Filter`, which holds the four tables as arrays;
  - `rispetta_filtro`, `reset_filtro` and the three passes of `confronto`, each proved against the value-level definitions.
- **`engine.dfy`**, module `Engine`. The class `Engine` holds:
  - the dictionary;
  - the candidate tree;
  - the temporary list, a `seq` field;
  - the counters `num_nodes_list` and `num_filtered`;
  - the tables.

  Its methods are `push`, `inOrder`, `list_to_bst`, `genera_filtrate`, `filtra_albero`, `pulisci_lista`, `insert_filtrate`, `insert` and `confronto`.
- **`game.dfy`**, module `Session`:
  - the steps of one game: start, guess, insert and finish;
  - a value-level invariant (`Consistent`) saying that the words `+stampa_filtrate` shows are exactly the dictionary words that pass the filter.

  `flag` and the number of guesses left are locals of `game` in the source. So they are parameters and results of these steps, not fields.

### Mid-game insertions and letter codes

- **Mid-game insertions.** `insert` hangs each new word that passes the filter straight into the candidate tree, by unbalanced insertion (main.c:104-107). While `flag` is clear, the next counted guess filters that tree with `filtra_albero`. While `flag` is set, it is `genera_filtrate` that runs: it rescans the dictionary and overwrites the candidate tree. `Session.InsertConsistent` proves that the insertion loses nothing: afterwards, the candidates in order are still the dictionary words that pass the filter.
- **Letter codes.** The code scans letter codes 45..122 in `confronto` and `reset_filtro`, and 45..127 in `rispetta_filtro`. The model keeps these ranges. Over the model's alphabet (see "## Left out"), `Words.CountUnscanned` proves that codes outside 45..122 occur in no word.

## Model

| member | source | states |
|---|---|---|
| Words.Cmp | main.c:89 | the result is -1, 0 or 1, like the sign of `strcmp` on the two words |
| Words.CmpZero | main.c:116-117 | `strcmp` is zero exactly when the two words are equal, so `search`'s hit test is exact |
| Words.CmpFlip | main.c:92-95 | swapping the operands negates the comparison, so the left and right branches are mirror images |
| Words.LessTransitive | main.c:92-95 | the order the trees are sorted by is transitive |
| Words.LessTotal | main.c:92-95 | the order is irreflexive, asymmetric and total, so distinct words always go either left or right |
| Words.Count | main.c:361 | the tally of a letter never exceeds the word length |
| Words.CountUnscanned | main.c:337-340 | a code outside 45..122 occurs in no word, so the per-letter loops over 45..122 and 45..127 miss no letter |
| Trees.InsertT | main.c:84-102 | the placement `insert` and `insert_filtrate` give a new word: down the `strcmp` descent, right when positive and left otherwise, as a new leaf |
| Trees.InsertElements | main.c:84-102 | unbalanced insertion adds exactly the new word to the word set |
| Trees.InsertOrdered | main.c:84-102 | inserting an absent word into an ordered tree keeps it ordered |
| Trees.InsertLength | main.c:154-180 | insertion lengthens the in-order sequence by one, matching the `num_filtered++` of `insert_filtrate` |
| Trees.ElementsAreFlattened | main.c:128-134 | the word set of a tree is exactly the words of its in-order sequence (what `stampa` prints) |
| Trees.OrderedIffSorted | main.c:199-206 | a tree is ordered exactly when its in-order visit is strictly increasing |
| Trees.SortedConcat | main.c:199-206 | a sorted left part, a root greater than it and a sorted right part greater still make a sorted in-order sequence |
| Trees.SortedUnique | main.c:199-206 | two strictly increasing sequences with the same words are equal |
| Trees.Balanced | main.c:208-225 | the tree `list_to_bst` builds from n cells: the first n/2 cells on the left, the next one at the root, the rest on the right |
| Trees.BalancedSplit | main.c:208-225 | the balanced tree of n cells has the n/2 first cells on the left, the next cell at the root and the remaining n-n/2-1 on the right |
| Trees.BalancedFlatten | main.c:208-225 | the in-order sequence of the rebuilt tree is the list, in list order |
| Trees.BalancedOrdered | main.c:208-225 | a sorted list gives an ordered rebuilt tree |
| Trees.BalancedHeight | main.c:208-225 | fewer than 2^h cells give a tree of height at most h, that is, height at most ceil(log2(n+1)) |
| Arena.Descend | main.c:84-97 | the trailing pointer stops at a node whose child in the descent direction is NULL |
| Arena.DescendInside | main.c:84-97 | the node where the descent stops holds a word of the subtree the descent started from |
| Arena.FrameExcept | main.c:98-102 | relinking one node leaves every subtree that does not contain it unchanged |
| Arena.LinkInserts | main.c:98-102 | hanging the new leaf under the trailing pointer, right when `strcmp` is positive and left otherwise, turns the tree into its unbalanced insertion |
| Arena.FrameWithin | main.c:208-225 | a subtree built in a range of nodes is not changed by changes outside that range |
| Arena.AbsKeys | main.c:199-206 | every word the in-order visit reaches is the word of some node |
| Arena.AbsLengths | main.c:199-206 | when every node's word has the game's length, so does every word of the visit |
| Arena.AssembleNode | main.c:212-222 | a node over a left subtree built before it and a right subtree built after it holds exactly those two subtrees |
| Arena.ExtendsEmpty | main.c:209-210 | `list_to_bst` with n <= 0 returns NULL and leaves the arena alone |
| Arena.GrowsByNode | main.c:213-215 | allocating a node and linking its left child keeps every existing node and its links |
| Arena.RelinkRight | main.c:222 | setting the root's right link changes no other link |
| Arena.ExtendsNode | main.c:208-225 | one recursion step of `list_to_bst` builds the balanced tree of the first n cells and keeps every earlier node |
| Arena.Bst.constructor | main.c:467 | a new tree is empty and well formed |
| Arena.Bst.Words | main.c:128-134 | the words of the tree in order, each of the game's length |
| Arena.Bst.NewNode | main.c:68-76 | a new node is appended, with both links NULL, and nothing else changes |
| Arena.Bst.SetLeft | main.c:101-102 | only the left link of node y changes, and the links still form a finite tree |
| Arena.Bst.SetRight | main.c:99-100 | only the right link of node y changes, and the links still form a finite tree |
| Arena.Bst.Insert | main.c:78-103 | on an absent word, the tree stays ordered, becomes the unbalanced insertion of the word, and gains exactly that word |
| Arena.Bst.NextKeepsPresent | main.c:84-97 | on a word the subtree holds, one step of the descent lands on a node whose subtree still holds it, and it stays put at the node holding the word |
| Arena.Bst.WalkKeepsPresent | main.c:84-97 | after any number of descent steps on a word the subtree holds, the loop is at a node, never NULL, whose subtree holds it |
| Arena.Bst.DescentNeverEnds | main.c:84-97 | inserting a word the tree already holds never leaves the loop: from the root, no number of steps reaches NULL |
| Arena.Bst.Search | main.c:110-126 | the walk finds the word exactly when it is in the tree |
| Arena.Bst.Clear | main.c:263-271 | after freeing, the tree is empty |
| Evaluation.Feedback | main.c:284-335 | the marks have one entry per position of the guess |
| Evaluation.CountSplit | main.c:296-309 | the copies of a letter in a prefix split into the agreeing positions and the waiting ones |
| Evaluation.CountWhole | main.c:296-309 | the copies of a letter in a whole word split into the agreeing positions and the waiting ones |
| Evaluation.FoundPrefix | main.c:311-335 | in a prefix, the positions of a letter marked `+` or `|` number the agreeing ones plus as many waiting ones as the target's unused copies allow |
| Evaluation.Mark | main.c:311-335 | a position is `+` when guess and secret agree, otherwise `|` when fewer waiting copies of its letter come before it than the secret has unused copies, and `/` otherwise |
| Evaluation.FeedbackMarks | main.c:296-335 | a position is `+` exactly where guess and target agree, and every other position is `|` or `/` |
| Evaluation.FeedbackCounts | main.c:296-335 | for every letter c, the positions of c marked `+` or `|` number min(#c in guess, #c in target) |
| Evaluation.PendingGrows | main.c:311-335 | the number of waiting copies of a letter grows along the guess |
| Evaluation.LeftToRight | main.c:311-335 | once a waiting copy of a letter is marked `/`, every later waiting copy of it is `/` too |
| Evaluation.AgreeCount | main.c:296-309 | the count of agreeing positions reaches the prefix length exactly when the prefixes are equal |
| Evaluation.AgreeAll | main.c:343-344 | all positions agree exactly when the guess is the target |
| Constraints.Satisfies | main.c:357-377 | `rispetta_filtro` accepts a word exactly when it has every known letter, no excluded letter at its position, at least the minimum of each letter and exactly the known count where one is set |
| Constraints.Update | main.c:296-340 | the tables after `confronto`: agreeing positions fix their letter, others exclude the guessed letter, minima rise to min(#c in g, #c in t), and a letter the guess holds more often than the target gets its exact count |
| Constraints.Empty | main.c:40-43 | the start-up tables accept every word of the game's length |
| Constraints.UpdateFacts | main.c:305-308 | after a guess, a newly fixed letter is the target's, a newly excluded letter is the guess's letter at a disagreeing position, minima never decrease, and a minimum rises at most to the target's count (it never exceeds the larger of the old minimum and that count), and a changed exact count is the target's count |
| Constraints.UpdateKeepsTarget | main.c:296-340 | tables that accept the target still accept it after a guess against it |
| Constraints.Replay | main.c:444-453 | the tables after a game's counted guesses, one `confronto` update per guess against the same secret |
| Constraints.NeverExcludesTarget | main.c:379-397 | from the reset tables, after any sequence of guesses against the same target, `rispetta_filtro` accepts the target |
| Constraints.ReplayKeepsTarget | main.c:296-340 | from any tables that accept the target, a sequence of guesses against it keeps accepting it |
| Constraints.UpdateNarrows | main.c:296-340 | while the tables accept the target, a guess only narrows them: a word accepted afterwards was accepted before |
| Constraints.Survivors | main.c:199-206 | the words `inOrder` pushes are at most as many as visited, all of them visited, all of the game's length |
| Constraints.SurvivorsAppend | main.c:199-206 | filtering a concatenation is concatenating the filtered parts, as `inOrder` visits left subtree, root, right subtree |
| Constraints.SurvivorsMembers | main.c:199-206 | a word is pushed exactly when it is visited and passes the filter |
| Constraints.SurvivorsSorted | main.c:199-206 | the pushed words of an in-order visit are in increasing order |
| Constraints.SurvivorsAll | main.c:432-433 | when every word passes, nothing is filtered out, so printing the dictionary while `flag` is set shows the candidates |
| Constraints.SurvivorsCons | main.c:201-204 | a visited word contributes itself exactly when it passes |
| Constraints.SurvivorsIdempotent | main.c:241-251 | filtering the candidates again with the same tables changes nothing |
| Constraints.SurvivorsNarrow | main.c:241-251 | filtering the old candidates with the new tables is filtering the whole dictionary with them, so `filtra_albero` loses no word `genera_filtrate` would keep |
| Filters.UsedSpare | main.c:314-326 | the target positions pass 2 has used up never outnumber the spare copies, and equal them exactly when all spare copies are used |
| Filters.UsedNone | main.c:296-309 | before pass 2, only agreeing positions are used up |
| Filters.UsedBump | main.c:320 | using up one target position adds one to its letter's tally and nothing to the others |
| Filters.PlacedStart | main.c:311 | the state after pass 1 is the start state of pass 2 |
| Filters.PlacedSkip | main.c:312-313 | an agreeing position is skipped and changes nothing |
| Filters.PlacedFound | main.c:314-325 | a waiting letter that finds an unused target position is marked `|`, uses it up and counts once more |
| Filters.PlacedMissing | main.c:328-334 | a waiting letter with no unused position is marked `/` and fixes its letter's exact count |
| Filters.PlacedEnd | main.c:311-335 | at the end of pass 2 the marks are the feedback, each tally is min(#c in g, #c in t), and an exact count is set to the target's count exactly when the guess holds more copies |
| Filters.Filter.constructor | main.c:40-43 | the start-up tables are the reset state, which accepts every word |
| Filters.Filter.View | main.c:40-43 | the tables read as a value sized for the game |
| Filters.Filter.Respects | main.c:357-377 | the loops accept a word exactly when it satisfies the knowledge in the tables |
| Filters.Filter.Reset | main.c:379-397 | the tables go back to the state that accepts every word |
| Filters.Filter.MarkAgreeing | main.c:296-309 | pass 1 marks `+` and uses up exactly the agreeing positions, counts them, tallies the agreeing copies of each letter, and leaves `here` and `not_here` as one guess's update of the old tables |
| Filters.Filter.MarkPositions | main.c:296-309 | the loop of pass 1 fixes the letter at each agreeing position and excludes the guessed letter at every other one |
| Filters.Filter.MarkOthers | main.c:311-335 | pass 2 produces exactly the feedback, tallies min(#c in g, #c in t) per letter, and sets an exact count to the target's count exactly when the guess holds more copies |
| Filters.Filter.RaiseMinima | main.c:337-340 | each minimum in the scanned range rises to the tally, and the others are unchanged |
| Filters.Filter.Evaluate | main.c:284-344 | the marks are the feedback, the win test holds exactly when the guess is the target, and the new tables are one guess's update of the old ones |
| Engine.Engine.constructor | main.c:28-43 | at start-up both trees and the list are empty, both counters are zero and the tables accept every word |
| Engine.Engine.Known | main.c:40-43 | the knowledge held in the tables, sized for the game |
| Engine.Engine.Push | main.c:182-197 | the word is appended at the tail, and both counters grow by one |
| Engine.Engine.TreeWords | main.c:199-206 | every word of a tree of the arena has the game's length |
| Engine.Engine.InOrder | main.c:199-206 | the in-order visit appends exactly the visited words that pass the filter, in order, and `num_filtered` grows by their number |
| Engine.Engine.Visit | main.c:201-204 | a node's word is pushed exactly when it passes |
| Engine.Engine.InOrderJoins | main.c:199-206 | left subtree, node and right subtree together push the filtered in-order sequence |
| Engine.Engine.DropHead | main.c:217-220 | freeing the head cell drops the first word and uncounts it |
| Engine.Engine.ClearList | main.c:253-261 | after `pulisci_lista` the list is empty and `num_nodes_list` is zero |
| Engine.Engine.DropAfter | main.c:218-222 | consuming n/2 cells, then one, then n-n/2-1 leaves the list at cell n |
| Engine.Engine.HangHead | main.c:213-220 | a node for the head word is appended over the left subtree, and the head cell is consumed |
| Engine.Engine.ListToBst | main.c:208-225 | for n at most the list length: consumes exactly the first n cells, leaves the list at cell n, and builds the balanced tree of those cells in list order in fresh nodes, leaving earlier nodes alone |
| Engine.Engine.GenerateFiltered | main.c:227-232 | the candidate tree becomes the balanced tree of the dictionary words that pass, in order; `num_filtered` is their number; the list is empty |
| Engine.Engine.FilterTree | main.c:241-251 | the candidate tree becomes the balanced tree of its own words that pass, in order; `num_filtered` is their number; the list is empty |
| Engine.Engine.Collect | main.c:229-230 | zeroing `num_filtered` and visiting a tree lists exactly its words that pass, and counts them |
| Engine.Engine.Rebuild | main.c:246-248 | freeing the candidate tree and rebuilding it from the whole list gives the balanced tree of the list and empties the list |
| Engine.Engine.RebuildKeepsOrder | main.c:227-251 | the rebuilt candidate tree is ordered when its source was |
| Engine.Engine.InsertFiltered | main.c:154-180 | the candidate tree gains exactly the word by unbalanced insertion and stays ordered; `num_filtered` grows by one |
| Engine.Engine.Insert | main.c:78-108 | the dictionary becomes its unbalanced insertion of the word; during a game the candidate tree gains the word and `num_filtered` grows exactly when it passes, otherwise both are unchanged |
| Engine.Engine.Compare | main.c:284-355 | the marks are the feedback and the tables become one guess's update. A win (exactly when the guess is the target) leaves the candidates alone. Otherwise the candidates are rebuilt from the dictionary when `flag` is set, from themselves when not, and `num_filtered` counts them |
| Session.InsertKeepsSurvivors | main.c:104-107 | inserting a new word into the dictionary and, when it passes, into the candidate tree keeps the candidates equal to the dictionary words that pass |
| Session.Consistent | main.c:403-457 | between guesses the words shown are the dictionary words that pass, the filter accepts the secret, `num_filtered` counts the candidates, the candidates are dictionary words, and nothing is known while `flag` is set |
| Session.StartConsistent | main.c:403-412 | a game starts with no candidates and with every dictionary word shown |
| Session.GuessConsistent | main.c:444-453 | after a counted guess, rebuilding from the dictionary (flag set) or from the candidates (flag clear) gives the same words, and the game stays consistent with `flag` cleared |
| Session.InsertConsistent | main.c:427-428 | a word inserted during a game keeps it consistent; the new word was not yet a candidate |
| Session.Shown | main.c:432-435 | `+stampa_filtrate` prints the dictionary while `flag` is set and the candidate tree afterwards |
| Session.ShownSurvivors | main.c:432-435 | `+stampa_filtrate` shows exactly the dictionary words that pass the filter, in order |
| Session.TargetShown | main.c:432-435 | while the secret word is in the dictionary, it is among the words shown |
| Session.Start | main.c:403-412 | a game starts consistent, with `flag` set and `num_filtered` zero |
| Session.Guess | main.c:444-457 | a word absent from the dictionary is refused, not counted, and changes neither the tables nor the candidates nor `num_filtered`; the secret word wins, keeping the guesses left, `flag`, the candidates and `num_filtered`, so `ko` is not printed after it; any other word prints the feedback and the number of dictionary words that pass the new tables, costs one guess and clears `flag` |
| Session.Attempt | main.c:446-453 | a dictionary word is compared; unless it wins, the game stays consistent with one guess fewer and `flag` cleared; a win keeps the guesses left, `flag`, the candidate tree and `num_filtered` |
| Session.Insert | main.c:427-428 | inserting during a game keeps the game consistent and the tables unchanged; the dictionary gets the unbalanced insertion of the word, and the candidate tree gets it, with `num_filtered` one higher, exactly when the word passes |
| Session.Finish | main.c:460-463 | `ko` is printed exactly when no guess is left; the candidate tree is freed and, with the `reset_filtro` that follows, the tables accept every word again |

## Left out

- Reading input and printing output are not modelled. This covers:
  - `fgets`/`scanf` and the command dispatch of `main`, `game` and `loop_insert_dict`;
  - the `puts`/`printf` of `confronto`, `stampa` and `stampa_lista`.

  What is printed is stated instead: the marks (`Evaluation.Feedback`), the count (`Session.Guess`), and the in-order sequence of a tree (`Arena.Bst.Words`, `Session.Shown`).
- The loops of `main` and `game` are not modelled as loops. `Session.Start`, `Session.Guess`, `Session.Insert` and `Session.Finish` are one step each, and the caller sequences them. The caller also stops the game when the guesses run out. The reason is that those loops are driven by input.
- `malloc`, `free` and `free_dict` are not modelled. Freeing a structure is modelled as that structure becoming empty.
- `new_node` copies the word, and `new_node_filt` shares it with the list cell. Words are values in the model, so this aliasing does not arise.
- `genera_filtrate` overwrites the candidate tree without freeing it. The candidate nodes that `insert_filtrate` made before the first counted guess are therefore leaked; their words stay owned by the dictionary. `Engine.Engine.Rebuild` empties the candidate arena before rebuilding, which leaves the same reachable tree without modelling the leak.
- The `tail` link is not modelled. `list_to_bst` frees every cell through `head` (main.c:217-219) and never resets `tail`, which is left dangling; `pulisci_lista` only ever runs on a list that is already empty. The list is a `seq`, so the dangling `tail` has no counterpart.
- Words are restricted by type to the 64 characters a-z, A-Z, 0-9, '-' and '_' (`Words.Letter`); the source accepts any byte. For a word holding a code in 123..127, `confronto` would never raise that letter's `min_times` (main.c:337-340), and `reset_filtro` would never clear its `exact_times` or `not_here` entries (main.c:380-396), so its facts would carry into the next game. The model does not capture that behaviour.
- Buffer truncation is not modelled. `buffer[words_len] = 0` and the fixed sizes `here[256]` and `char buffer[256]` are replaced by preconditions: every word has the game's length, and the tables are sized for that length.
- `size_t`/`int` overflow of the counters is not modelled. Counts are unbounded because no number of words reaches the limits.
- Arena.Bst.Insert: requires the word to be absent, because on a present word the C descent never ends (`Arena.Bst.DescentNeverEnds` proves the descent never reaches NULL). It also allocates the new node after the descent, not before as `insert` does; nothing observes that order.
- Engine.Engine.Insert: requires that a word inserted during a game is not yet a candidate, for the same reason. `Session.InsertConsistent` proves that the game always meets this.
- Evaluation.Feedback: its own contract only gives the length. What the marks mean is stated by `Evaluation.FeedbackMarks`, `Evaluation.FeedbackCounts` and `Evaluation.LeftToRight`.
- Constraints.Survivors: its own contract gives bounds only. Membership and order are stated by `Constraints.SurvivorsMembers` and `Constraints.SurvivorsSorted`.
