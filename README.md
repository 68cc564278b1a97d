# Verified model of the cse212 data-structure exercises

This project models, in Dafny, the core of a set of small C# data-structure exercises and proves
what each one promises:

- **Singly linked list of integers** (`week04/code/LinkedList.cs`). The list keeps a head and a tail reference.
  - Nodes are heap objects with a mutable link.
  - The `LinkedList` class keeps a ghost `spine`, the nodes from head to tail, and a ghost `Contents`, the values they hold.
  - `Valid()` states how the links, the tail reference and the values agree.
  - Every mutator is proved to keep `Valid()` and to state its new `Contents`.
    - `InsertHead`, `InsertTail` and `RemoveTail` state it as a sequence expression over the old values.
    - `Remove`, `InsertAfter` and `Replace` state it through value-level functions of `LinkedListSpec`.
  - The read-only operations (`Values`, `Reverse`, `ToString`) return a function of `Contents` and change nothing.
- **Sets and maps** (`week03/code/SetsAndMaps.cs`): three algorithms.
  - `FindPairs`: symmetric two-letter word pairs, found with a set of the words.
    - A pair is never reported under both of its words.
    - It is reported once for every occurrence of its reporting word.
    - So with a repeated word, as in `["am", "ma", "am"]`, the output holds `"ma & am"` twice.
  - `IsAnagram`: a character-count comparison that ignores letter case and whitespace, using a dictionary of counters.
  - The counting loop of `SummarizeDegrees`, over a given sequence of lines.
- **Right rotation in place** (`week01/code/Arrays.cs`, `RotateListRight`).
- **Maze walker** (`week03/code/Maze.cs`): a position that a move changes only when the map allows that direction from the current cell.
- **Person and FIFO queue of persons** (`week02/code/Person.cs`, `week02/code/PersonQueue.cs`), with their text forms.

The module `Text` models the few .NET string facilities the exercises use:
- decimal formatting of an `int`;
- `string.Join`, `Split(char)`, `Trim` and `ToLower`;
- `char.IsWhiteSpace` and `string.Compare`.

Each model comes with the lemmas the proofs need, for example that formatting an integer can be parsed back.

The list's text forms follow the code: `"<LinkedList>{"` and `"<IEnumerable>{"` prefixes around the comma-space-joined values.

Failures that the C# code signals with exceptions become outcome values:
- a maze cell missing from the map, or an entry too short for the direction;
- "Can't go that way!";
- "Queue is empty.".

The operation that fails leaves the state as it was.

## Model

| member | source | states |
|---|---|---|
| LinkedLists.Node.constructor | week04/code/LinkedList.cs:14-18 | a new node holds the given value and has no successor |
| LinkedLists.LinkedList.constructor | week04/code/LinkedList.cs:29-33 | a new list is valid and empty, with head and tail both null |
| LinkedLists.LinkedList.InsertHead | week04/code/LinkedList.cs:37-52 | the values become `[v] + old`; the new node is the head; on an empty list it is also the tail, otherwise the tail is unchanged; the list stays valid |
| LinkedLists.LinkedList.InsertTail | week04/code/LinkedList.cs:56-71 | the values become `old + [v]`; the new node is the tail and is appended to the chain; on an empty list it is also the head |
| LinkedLists.LinkedList.RemoveTail | week04/code/LinkedList.cs:75-95 | an empty list is left empty; otherwise exactly the last value and node are dropped; with two or more nodes the old predecessor of the tail becomes the tail; one node leaves an empty list |
| LinkedLists.LinkedList.Remove | week04/code/LinkedList.cs:99-126 | the values become `RemoveFirst(old, v)` and the chain loses exactly the node at the first index of `v`; an absent `v` leaves head and tail alone; removing the tail makes its predecessor the tail |
| LinkedLists.LinkedList.DropHead | week04/code/LinkedList.cs:103-107 | the head node leaves the chain together with its value; the tail is unchanged while nodes remain, and the list stays valid (so an emptied list has a null tail) |
| LinkedLists.LinkedList.FindPredecessor | week04/code/LinkedList.cs:110-115 | the walk stops at the node just before the first later node holding `v`, or at the last node; no value up to it is `v` |
| LinkedLists.LinkedList.UnlinkAfter | week04/code/LinkedList.cs:117-125 | the node after `current` leaves the chain, values and nodes alike; `current` becomes the tail exactly when the removed node was the tail |
| LinkedLists.LinkedList.InsertAfter | week04/code/LinkedList.cs:130-146 | the values become `InsertAfterFirst(old, x, y)`; an absent `x` leaves nodes, head and tail unchanged; otherwise one fresh node enters right after the first `x`, and it becomes the tail when `x` was at the tail |
| LinkedLists.LinkedList.FindFirst | week04/code/LinkedList.cs:132-136 | the walk stops at the first node holding `x`, or past the end when no node holds it |
| LinkedLists.LinkedList.LinkAfter | week04/code/LinkedList.cs:138-145 | a fresh node holding `y` enters the chain right after `current`; it becomes the tail exactly when `current` was the tail |
| LinkedLists.LinkedList.Replace | week04/code/LinkedList.cs:149-158 | the values become `ReplaceAll(old, a, b)`; the nodes, every link, head and tail are unchanged |
| LinkedLists.LinkedList.Reverse | week04/code/LinkedList.cs:162-174 | the result is the values in reverse order; the list is not modified |
| LinkedLists.LinkedList.ToString | week04/code/LinkedList.cs:178-194 | the text is `Format("<LinkedList>{", values)` |
| LinkedLists.LinkedList.Values | week04/code/LinkedList.cs:198-206 | enumeration yields exactly the values from head to tail |
| LinkedLists.HeadAndTailAreNull | week04/code/LinkedList.cs:222 | both head and tail are null; no contract of its own, tied to emptiness by HeadAndTailNullExactlyWhenEmpty |
| LinkedLists.HeadAndTailAreNotNull | week04/code/LinkedList.cs:225 | neither head nor tail is null; no contract of its own, tied to non-emptiness by HeadAndTailNullExactlyWhenEmpty |
| LinkedLists.HeadAndTailNullExactlyWhenEmpty | week04/code/LinkedList.cs:222-225 | in a valid list head and tail are null together, exactly when the list is empty, and both are non-null exactly when it is not |
| LinkedLists.AsString | week04/code/LinkedList.cs:228-241 | the text is `Format("<IEnumerable>{", items)` |
| LinkedListSpec.FirstIndex | week04/code/LinkedList.cs:132-136 | the index of the first `v`: no earlier element is `v`, the element there is `v`, and it is the length exactly when `v` is absent |
| LinkedListSpec.FirstIndexAt | week04/code/LinkedList.cs:112-117 | an index holding `v` with no `v` before it is the first index of `v` |
| LinkedListSpec.RemoveFirstIsDropAt | week04/code/LinkedList.cs:99-126 | removing the first `v` drops the element at its first index and keeps the rest in order |
| LinkedListSpec.RemoveFirstMultiset | week04/code/LinkedList.cs:99-126 | removal takes away one occurrence of `v` and nothing else, and shortens the list by one exactly when `v` was present |
| LinkedListSpec.RemoveFirstAbsent | week04/code/LinkedList.cs:112-117 | removing an absent value changes nothing |
| LinkedListSpec.InsertAfterFirstIsInsertAt | week04/code/LinkedList.cs:130-146 | insertion puts `y` right after the first `x` and keeps everything else in order; with no `x` nothing changes |
| LinkedListSpec.InsertAfterFirstMultiset | week04/code/LinkedList.cs:130-146 | insertion adds one `y` when `x` is present and nothing otherwise |
| LinkedListSpec.ReplaceAllAt | week04/code/LinkedList.cs:149-158 | the length is kept and each position holds `b` where it held `a`, its old value elsewhere |
| LinkedListSpec.ReplaceAllSame | week04/code/LinkedList.cs:154-155 | replacing a value by itself changes nothing |
| LinkedListSpec.ReplaceAllRemovesOld | week04/code/LinkedList.cs:154-155 | after replacing `a` by a different `b`, no `a` is left |
| LinkedListSpec.ReversedAt | week04/code/LinkedList.cs:162-174 | the reversal has the same length and position `k` holds element `n - 1 - k` |
| LinkedListSpec.ReversedInvolution | week04/code/LinkedList.cs:162-174 | reversing twice gives the values back |
| LinkedListSpec.ReversedSnoc | week04/code/LinkedList.cs:164-173 | a value at the back of the list comes first in the reversal, ahead of the reversal of the rest |
| LinkedListSpec.ReversedLength | week04/code/LinkedList.cs:162-174 | the reversal has as many values as the list |
| LinkedListSpec.JoinIntStringsShape | week04/code/LinkedList.cs:185-187 | the joined values contain a comma exactly when there are at least two, and are empty exactly when there are none |
| LinkedListSpec.JoinIntStringsInjective | week04/code/LinkedList.cs:183-189 | equal joined texts come from equal value sequences |
| LinkedListSpec.JoinIntStringsStep | week04/code/LinkedList.cs:185-187 | one more value appends ", " and its text, with no separator before the first |
| LinkedListSpec.FormatInjective | week04/code/LinkedList.cs:178-194 | two lists have the same text exactly when they hold the same values |
| Text.IntToString | week04/code/LinkedList.cs:186 | the decimal text is non-empty, starts with '-' exactly for a negative value, and holds only '-' and digits |
| Text.Join | week02/code/PersonQueue.cs:42 | `string.Join`: no contract of its own; JoinSnoc, JoinSplit and JoinIntStringsInjective state its properties |
| Text.Split | week03/code/SetsAndMaps.cs:43 | there is always at least one field, and no field contains the separator |
| Text.Trim | week03/code/SetsAndMaps.cs:46 | the result neither starts nor ends with whitespace |
| Text.ToLower | week03/code/SetsAndMaps.cs:62-63 | the length is kept and each character is lower-cased on its own |
| Text.IsWhiteSpace | week03/code/SetsAndMaps.cs:62-63 | `char.IsWhiteSpace` on the ASCII whitespace characters; no contract of its own |
| Text.LexLess | week03/code/SetsAndMaps.cs:26 | `string.Compare(a, b) < 0` as ordinal order; no contract of its own, LexLessTotal states that it is a strict total order |
| Text.IntToStringRoundTrip | week04/code/LinkedList.cs:186 | the decimal text of an integer parses back to it |
| Text.IntToStringInjective | week03/code/Maze.cs:54 | two integers have the same text exactly when they are equal |
| Text.JoinSplit | week03/code/SetsAndMaps.cs:43 | joining the fields of a split with the separator gives the line back |
| Text.TrimIdempotent | week03/code/SetsAndMaps.cs:46 | trimming twice is trimming once |
| Text.LexLessTotal | week03/code/SetsAndMaps.cs:26 | no string sorts before itself, and of two different strings exactly one sorts first |
| Arrays.RotateListRight | week01/code/Arrays.cs:37-61 | the list is overwritten in place with `RotatedRight(old, amount)`, for `1 <= amount <= n` |
| Arrays.PlaceRotated | week01/code/Arrays.cs:48-55 | the temporary list holds each element `i` at `(i + amount) % n`, and so is the rotation |
| Arrays.PlacedIsRotation | week01/code/Arrays.cs:51-55 | a list holding element `j` at `(j + amount) % n` for every `j` is the rotation |
| Arrays.ModIsWrap | week01/code/Arrays.cs:53 | for `0 <= x < 2n` the remainder `x % n` is `x`, or `x - n` once `x` reaches `n` |
| Arrays.RotatedRightIndex | week01/code/Arrays.cs:51-55 | index `t` of the rotation holds the element `amount` places before it, wrapping round |
| Arrays.RotatedRightAt | week01/code/Arrays.cs:53-54 | the rotation keeps the length and holds old element `i` at `(i + amount) % n` |
| Arrays.RotatedRightMultiset | week01/code/Arrays.cs:48-60 | the rotation holds the same elements with the same counts |
| Arrays.RotatedRightFullTurn | week01/code/Arrays.cs:34 | rotating by the whole length leaves the list unchanged |
| Arrays.RotatedRightExample | week01/code/Arrays.cs:32-33 | `{1,...,9}` rotated by 3 is `{7,8,9,1,2,3,4,5,6}` |
| Mazes.Maze.constructor | week03/code/Maze.cs:11-17 | a new walker keeps the given map and starts at (1, 1) |
| Mazes.Check | week03/code/Maze.cs:22-23 | a move is allowed exactly when the current cell is in the map, its entry has the direction's slot, and that slot is true; a missing cell is reported as such |
| Mazes.Step | week03/code/Maze.cs:20-49 | an allowed move changes exactly one coordinate by exactly 1; a refused move keeps the position |
| Mazes.StepThereAndBack | week03/code/Maze.cs:20-49 | a move followed by an allowed move in the opposite direction returns to the start |
| Mazes.Maze.MoveLeft | week03/code/Maze.cs:20-25 | x decreases by 1 exactly when the cell's slot 0 allows it; otherwise an error outcome and no move; y is untouched |
| Mazes.Maze.MoveRight | week03/code/Maze.cs:28-33 | x increases by 1 exactly when slot 1 allows it; otherwise an error outcome and no move |
| Mazes.Maze.MoveUp | week03/code/Maze.cs:36-41 | y decreases by 1 exactly when slot 2 allows it; otherwise an error outcome and no move; x is untouched |
| Mazes.Maze.MoveDown | week03/code/Maze.cs:44-49 | y increases by 1 exactly when slot 3 allows it; otherwise an error outcome and no move |
| Mazes.Maze.GetStatus | week03/code/Maze.cs:52-55 | the status text of the current position; no contract of its own, StatusTextInjective shows that it determines the position |
| Mazes.StatusTextInner | week03/code/Maze.cs:54 | after the fixed opening "Current location (x=" and before the closing parenthesis, the status text is the x text, a comma, " y=" and the y text |
| Mazes.StatusTextInjective | week03/code/Maze.cs:52-55 | the status text names the position: two positions have the same text exactly when they are equal |
| People.Person.constructor | week02/code/Person.cs:24-28 | the given name and turn count are stored unchanged |
| People.Person.ToString | week02/code/Person.cs:34-37 | the person's text; no contract of its own, ToStringDecodes states how it reads back |
| People.ToStringDecodes | week02/code/Person.cs:34-37 | the text is "(", the name, ":", a field and ")"; the field is "Forever" exactly when the turns are 0 or less, and otherwise parses back to the turn count |
| PersonQueues.PersonQueue.constructor | week02/code/PersonQueue.cs:6 | a new queue is empty |
| PersonQueues.PersonQueue.IsEmpty | week02/code/PersonQueue.cs:35-38 | the queue is empty exactly when its length is 0 |
| PersonQueues.PersonQueue.Enqueue | week02/code/PersonQueue.cs:14-17 | the person is appended at the back and the length grows by one |
| PersonQueues.PersonQueue.Dequeue | week02/code/PersonQueue.cs:22-30 | on an empty queue: the empty-queue outcome and no change; otherwise the front person is returned and the rest stay in order |
| PersonQueues.FirstInFirstOut | week02/code/PersonQueue.cs:14-30 | persons enqueued one by one are dequeued in the same order |
| PersonQueues.PersonTexts | week02/code/PersonQueue.cs:42 | one text per person, in queue order, each that person's `ToString` |
| PersonQueues.QueueTextEmpty | week02/code/PersonQueue.cs:40-43 | the text is "[]" exactly for the empty queue |
| PersonQueues.PersonQueue.Length | week02/code/PersonQueue.cs:8 | the number of persons in the queue; no contract of its own, Enqueue, Dequeue and IsEmpty state how it changes |
| PersonQueues.PersonQueue.ToString | week02/code/PersonQueue.cs:40-43 | the text of the queue, `QueueText`; no contract of its own, QueueTextEmpty and QueueTextSnoc state its shape |
| PersonQueues.QueueTextSnoc | week02/code/PersonQueue.cs:40-43 | enqueuing onto a non-empty queue inserts ", " and the person's text before the closing "]" |
| SetsAndMaps.FindPairs | week03/code/SetsAndMaps.cs:14-32 | the result is `Pairs(words as a set, words)`: the pair texts of the reporting words, in input order |
| SetsAndMaps.PairsMembership | week03/code/SetsAndMaps.cs:19-28 | a text is in the result exactly when some word reports it |
| SetsAndMaps.PairsSound | week03/code/SetsAndMaps.cs:21-27 | "r & w" is emitted only when `w` and its reversal `r` are both words and `w` sorts before `r` |
| SetsAndMaps.PairsComplete | week03/code/SetsAndMaps.cs:19-28 | a two-letter word with distinct letters whose reversal is also a word has its pair emitted, under itself or under its reversal |
| SetsAndMaps.ReportsOnce | week03/code/SetsAndMaps.cs:25-27 | of a two-letter word and its reversal at most one reports, so a pair is not reported under both of its words |
| SetsAndMaps.PairsCount | week03/code/SetsAndMaps.cs:19-28 | a pair text occurs in the output exactly as often as its word occurs when the word reports, and never otherwise; without repeated words each pair appears at most once |
| SetsAndMaps.PairsRepeatedWord | week03/code/SetsAndMaps.cs:19-28 | for `["am", "ma", "am"]` the output holds "ma & am" twice |
| SetsAndMaps.PairsSkipSameLetters | week03/code/SetsAndMaps.cs:21 | a word of two equal letters never has a pair emitted |
| SetsAndMaps.PairTextInjective | week03/code/SetsAndMaps.cs:27 | the pair text determines its word |
| SetsAndMaps.PairsExample | week03/code/SetsAndMaps.cs:11-12 | `["am", "ma"]` gives `["ma & am"]` |
| SetsAndMaps.NonWhiteSpace | week03/code/SetsAndMaps.cs:62-63 | the cleaned text contains no whitespace |
| SetsAndMaps.NonWhiteSpaceCounts | week03/code/SetsAndMaps.cs:62-63 | removing whitespace keeps every other character exactly as often as it occurs, and no whitespace character |
| SetsAndMaps.Clean | week03/code/SetsAndMaps.cs:61-63 | the cleaned text has no whitespace and no upper-case letter |
| SetsAndMaps.LetterCounts | week03/code/SetsAndMaps.cs:67-74 | each counter holds the number of occurrences of its character, and a missing counter means zero |
| SetsAndMaps.TakeLetters | week03/code/SetsAndMaps.cs:76-82 | the subtraction loop succeeds exactly when the second text holds no character more often than the counters |
| SetsAndMaps.IsAnagram | week03/code/SetsAndMaps.cs:59-85 | true exactly when the cleaned texts hold every character equally often; false whenever the cleaned lengths differ |
| SetsAndMaps.CleanIgnoresWhiteSpace | week03/code/SetsAndMaps.cs:61-63 | inserting a whitespace character does not change the cleaned text |
| SetsAndMaps.CleanIgnoresCase | week03/code/SetsAndMaps.cs:61-63 | lower-casing the input first does not change the cleaned text |
| SetsAndMaps.Degree | week03/code/SetsAndMaps.cs:43-46 | a line has no degree exactly when it splits into fewer than four fields; a degree never starts or ends with whitespace |
| SetsAndMaps.SummarizeDegrees | week03/code/SetsAndMaps.cs:39-53 | a degree is a key exactly when some line counts for it, and its value is the number of lines whose trimmed fourth field is that degree; hence every count is at least 1 |
| SetsAndMaps.CountAppend | week03/code/SetsAndMaps.cs:41-51 | counts over two runs of lines add up, so the order of the lines does not matter |
| SetsAndMaps.CountSkipsShortLines | week03/code/SetsAndMaps.cs:43-44 | a line with fewer than four fields counts for no degree |
| SetsAndMaps.CountOneLine | week03/code/SetsAndMaps.cs:43-46 | a line of four or more comma-free fields counts once for its trimmed fourth field and for nothing else |
| SetsAndMaps.SplitJoin | week03/code/SetsAndMaps.cs:43 | splitting a join of comma-free fields at the comma gives the fields back |

## Left out

- The lazy `yield` iterators of `GetEnumerator` and `Reverse`, and changes to the list during iteration: `Values` and `Reverse` return the values as a sequence snapshot. The non-generic `IEnumerable.GetEnumerator` bridge (LinkedList.cs:208-211) is plumbing and has no model.
- The `Head` and `Tail` properties (LinkedList.cs:214-215) are read as the fields `head` and `tail`.
- `AsString` takes the enumerated values as a sequence rather than an arbitrary `IEnumerable<int>`.
- `StringBuilder` is modelled by string concatenation.
- `EarthquakeDailySummary` and its JSON helper classes are out of the model. They involve an HTTP request, JSON deserialisation and a `double` magnitude.
- `File.ReadLines` in `SummarizeDegrees` is out of the model: file I/O. The lines are a parameter.
- `MultiplesOf` is out of the model: floating-point arithmetic.
- `PriorityQueue_Tests.cs` has no model. It tests a `PriorityQueue` class that is not part of this model.
- Culture and Unicode behaviour is reduced to ASCII:
  - `ToLower` is ASCII lower-casing.
  - `char.IsWhiteSpace` and `Trim` use the six ASCII whitespace characters.
  - `string.Compare` is ordinal lexicographic order.
  - Integer formatting uses '-' and the digits 0-9.
- `int` is unbounded throughout. No 32-bit overflow is modelled: of a maze coordinate, of a turn count, or of a dictionary counter beyond `int.MaxValue`.
- Arrays.RotateListRight: the C# `List<int>` is an `array<int>`, since only its elements are read and overwritten.
- Arrays.RotateListRight: amounts above the list's length are excluded by the precondition, following the documented range 1 to `data.Count` (Arrays.cs:34). The code itself would rotate by `amount % n` for those.
- Arrays.RotateListRight: the first loop is the method `PlaceRotated`.
- SetsAndMaps.FindPairs: words shorter than two characters are excluded by the precondition. The code would throw `IndexOutOfRangeException` on them.
- SetsAndMaps.IsAnagram: the two counting loops are the methods `LetterCounts` and `TakeLetters`.
- LinkedLists.LinkedList.Remove and LinkedLists.LinkedList.InsertAfter: the search loop and the relinking step are separate methods (`FindPredecessor`/`UnlinkAfter`, `FindFirst`/`LinkAfter`, and `DropHead`).
- Exceptions (`InvalidOperationException`, `KeyNotFoundException`, `IndexOutOfRangeException`) are outcome values of `Dequeue` and of the maze moves, not thrown exceptions.
- Mazes.Maze: the C# walker keeps the caller's `Dictionary` and its `bool[]` entries by reference (Maze.cs:8, 16), so later changes by the caller are visible to it. The model keeps an immutable copy, a `map<Cell, seq<bool>>`, and does not capture that aliasing.
- `People.Person.Turns` is a public mutable field; the C# property setter is an assignment to it.
