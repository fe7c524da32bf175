# A verified model of the task heap

The program keeps a to-do list of tasks. Each task has a name and a due date. The tasks sit in
a binary min-heap (`Heap<T>`), stored in a growable `Vector` read as a complete binary tree, so
the root is always the task due first. Two tasks due at the same moment are ordered by name.

The heap supports these operations:
- `addItem` inserts a task by sifting it up.
- `removeItem` takes the root out by sifting the last element down.
- `getCurrent` peeks at the root.
- `toString` drains the heap in ascending order, builds a text of `name,M/D/YYYY H:MM` records
  joined by `=`, and then adds every task back.
- `saveHeap` writes that text to the task file, one record per line.
- `loadHeap` reads the file back, splitting each line at `,` and handing the date text to
  `java.util.Date`'s parser.

The model has four modules, one file each:

- `Strings` (`strings.dfy`) covers the two `java.lang.String` operations the file format rests on:
  - `String.split` with a one-character pattern. When the character is absent, the result is the
    whole string, even an empty one. Trailing empty pieces are dropped.
  - Joining parts with a separator.

  It proves that splitting undoes joining.
- `Tasks` (`task.dfy`) is `Task.java`. Dates are the five `java.util.Date` getters the program
  uses, with their own conventions: the year counts from 1900 and the month from 0. It models:
  - `Date.compareTo`, which returns -1, 0 or 1;
  - `String.compareTo`, which returns the first character difference, or else the length
    difference;
  - `Task.compareTo`;
  - `Task.toString`, including `Integer.toString` and the zero-padded minutes.

  It proves that `Task.compareTo` is a total order, that it is chronological and then
  lexicographic, and that a saved record splits back into its name and its date text.
- `HeapOrder` (`heap_order.dfy`) is the pure theory of the heap:
  - the index arithmetic;
  - the heap property and its parent-wise and child-wise forms;
  - the invariants of the sift-up and sift-down walks, with one lemma per loop round;
  - a reference insertion sort, plus the proof that sorted arrangements of the same tasks are
    identical;
  - the snapshot text that `toString` must produce.
- `Heaps` (`heap.dfy`) is `Heap.java` as a class whose field `taskList: seq<Task>` is updated in
  place. Every method keeps the heap property (`Valid()`) and states the new contents. Methods
  that stand for I/O are centred on the lines of the task file:
  - `ToString` returns exactly the ascending snapshot of the old contents, and the heap ends with
    the same tasks.
  - `SaveHeap` returns the lines to write.
  - `LoadHeap` takes the lines and the date parser, and reports the first line that fails to
    decode.

  For tasks whose names hold no ',', no '=' and no line terminator, every saved record is one
  line, and save followed by load gives back every task in ascending order
  (`SaveLoadRoundTrip`).

The model follows the code in these points:
- A record is `name,M/D/YYYY H:MM`: a space before the time, and no zero padding except for the
  minutes (the Javadoc at Task.java:49 writes `Name,MM/DD/YYYY HH:MM`).
- `loadHeap` adds to whatever the heap already holds; it does not clear it first.
- Months are 0-based in the `Date` fields and printed 1-based.

## Model

| member | source | states |
|---|---|---|
| Strings.SplitAll | Heap.java:201 | the pieces between separators hold no separator and join back to the original text |
| Strings.DropTrailingEmpty | Heap.java:216 | the result is a prefix of the pieces, ends in a non-empty piece (or is empty), and only empty pieces were dropped |
| Strings.Split | Heap.java:216 | String.split at one character: no piece holds the separator, and a text without the separator splits into just itself (an empty text included) |
| Strings.SplitJoin | Heap.java:216 | splitting the join of separator-free parts whose last part is non-empty gives those parts back |
| Strings.Join | Heap.java:120-124 | the '=' gluing of toString; SplitAll and SplitJoin state that splitting undoes it, JoinSnoc how it grows |
| Strings.JoinSnoc | Heap.java:119-123 | joining one more part appends the separator and that part to the joined text |
| Tasks.CompareInt | Task.java:73 | -1, 0 or 1, negative exactly when the first number is smaller, zero exactly when they are equal |
| Tasks.DateCompare | Task.java:73 | Date.compareTo: -1, 0 or 1, zero exactly for the same date |
| Tasks.DateCompareAntisymmetric | Task.java:73 | swapping the two dates negates the result |
| Tasks.DateCompareTransitive | Task.java:73 | an earlier date than an earlier date is earlier |
| Tasks.DateCompareIsChronological | Task.java:73 | for dates with fields in their calendar ranges, the field-by-field comparison is the comparison of the minute counts, a count that orders like the instant for calendar dates |
| Tasks.MixedRadix | Task.java:73 | comparing two mixed-radix numbers (high digit times radix plus a low digit in range) is comparing the high digits, and the low ones when those are equal: the step behind the chronological order |
| Tasks.NameCompare | Task.java:79 | String.compareTo; its properties are carried by NameCompareIsLexicographic, NameCompareZero, NameCompareAntisymmetric and NameCompareTransitive |
| Tasks.NameCompareAntisymmetric | Task.java:79 | String.compareTo with the names swapped is the negation |
| Tasks.NameCompareZero | Task.java:79 | String.compareTo is zero exactly for equal names |
| Tasks.NameCompareTransitive | Task.java:79 | String.compareTo's "less" is transitive |
| Tasks.NameBeforeTail | Task.java:79 | dropping a shared first character keeps the lexicographic order in both directions |
| Tasks.NameBeforeCons | Task.java:79 | putting the same first character before two names keeps their lexicographic order |
| Tasks.NameBeforeUncons | Task.java:79 | removing a shared first character from two names keeps their lexicographic order |
| Tasks.NameCompareIsLexicographic | Task.java:79 | String.compareTo is negative exactly when the first name is a proper prefix of the second or has the smaller character at the first difference |
| Tasks.Compare | Task.java:72-81 | Task.compareTo is zero exactly when the two tasks are the same task |
| Tasks.CompareByDateThenName | Task.java:72-81 | different due dates decide the order; equal ones leave it to String.compareTo of the names |
| Tasks.CompareIsLexicographic | Task.java:72-81 | a task comes first exactly when its date is earlier, or the dates are equal and its name comes first lexicographically |
| Tasks.CompareReflexive | Task.java:72-81 | every task may stand before itself |
| Tasks.CompareAntisymmetric | Task.java:72-81 | swapping the two tasks negates the result |
| Tasks.CompareTotal | Task.java:72-81 | of any two tasks one may stand before the other; a task that is not strictly first may follow |
| Tasks.CompareTransitive | Task.java:72-81 | the order is transitive, strictly when either step is strict |
| Tasks.CompareAntisymmetricEq | Task.java:72-81 | tasks that may each stand before the other are equal |
| Tasks.NatToString | Task.java:53-54 | Integer.toString of a non-negative number: decimal digits, no leading zero, reading back to the number |
| Tasks.IntToString | Task.java:53-54 | Integer.toString: a leading '-' exactly for negative numbers, digits otherwise, no leading zero after the '-', reading back to the number |
| Tasks.MinutesTwoDigits | Task.java:56-60 | for minutes 0 to 59 the minutes field is exactly two digits that stand for them |
| Tasks.MinutesText | Task.java:56-60 | the minutes field; its property (two digits standing for the minutes) is carried by MinutesTwoDigits |
| Tasks.DateText | Task.java:53-60 | the date part of Task.toString; its properties are carried by DateTextChars and DateTextHasNoSeparators |
| Tasks.Encode | Task.java:52-63 | Task.toString; its properties are carried by EncodeFields, EncodeHasNoRecordSeparator and EncodeIsOneLine |
| Tasks.DateTextChars | Task.java:53-60 | the date part of Task.toString is non-empty and made only of digits, '-', '/', ' ' and ':' |
| Tasks.DateTextHasNoSeparators | Task.java:53-60 | the date part of Task.toString is non-empty and holds no ',', no '=' and no line terminator |
| Tasks.EncodeHasNoRecordSeparator | Task.java:53-62 | Task.toString is non-empty and holds no '=' when the name holds none |
| Tasks.EncodeFields | Task.java:53-62 | splitting Task.toString at ',' gives exactly the name and the date text when the name holds no ',' |
| Tasks.EncodeIsOneLine | Task.java:52-63 | Task.toString holds no line terminator when the name holds none, so Scanner reads each saved record back as one line |
| HeapOrder.PLoc | Heap.java:59-61 | getPLoc with Java's truncating division: a node's parent index is below it, and the root is its own parent |
| HeapOrder.LCLoc | Heap.java:69-71 | getLCLoc: the left child lies after the node and has it as parent |
| HeapOrder.RCLoc | Heap.java:79-81 | getRCLoc: the right child lies right after the left child and has the node as parent |
| HeapOrder.ChildrenOf | Heap.java:59-81 | the nodes whose parent is i are exactly its left and right child |
| HeapOrder.IsHeap | Heap.java:8-15 | the min-heap property (no node below its parent); RootIsMinimum and IsHeapIffParentsBelowChildren carry what it means |
| HeapOrder.IsHeapIffParentsBelowChildren | Heap.java:8-15 | the parent-wise heap property is equivalent to "every node is no larger than each of its children" |
| HeapOrder.RootIsMinimum | Heap.java:138-140 | in a heap the root is no larger than the element at any index |
| HeapOrder.RootIsMinimumAll | Heap.java:138-140 | in a heap the root is no larger than every element |
| HeapOrder.Swap | Heap.java:98-107 | exchanging two positions keeps the length, the other positions and the multiset of elements |
| HeapOrder.SiftUpStart | Heap.java:99-100 | appending to a heap sets up the sift-up invariant at the new last index |
| HeapOrder.SiftUpStep | Heap.java:102-105 | exchanging a node with a strictly greater parent moves the sift-up invariant to the parent |
| HeapOrder.SiftUpHole | Heap.java:102-105 | addItem's round (the parent moves down into the hole) keeps the invariant at the parent and the multiset |
| HeapOrder.SiftUpDone | Heap.java:102-106 | at the root, or below a parent that is not greater, the sequence is a heap |
| HeapOrder.SiftDownStart | Heap.java:152-153 | writing a new root over a heap sets up the sift-down invariant at the root |
| HeapOrder.SiftDownStep | Heap.java:170-173 | exchanging a node with a smallest child that is strictly smaller moves the sift-down invariant to that child |
| HeapOrder.SiftDownDone | Heap.java:174-181 | a node no larger than its children ends the walk with a heap |
| HeapOrder.RemoveRootStart | Heap.java:148-153 | moving the last element over the root sets up the sift-down invariant, and the elements are the old ones less the root |
| HeapOrder.SiftDownHole | Heap.java:159-173 | removeItem's round (the picked child moves up into the hole) keeps the invariant at that child and the multiset |
| HeapOrder.PickedChildIsSmallest | Heap.java:160-169 | removeItem's choice (the right child only when strictly smaller) is no larger than either child |
| HeapOrder.SiftDownHoleDone | Heap.java:174-184 | no child, or a picked child that is not smaller, means writing the element into the hole gives a heap |
| HeapOrder.Insert | Heap.java:113-132 | inserting into an ascending sequence gives an ascending sequence with one more copy of the element |
| HeapOrder.SortedCons | Heap.java:113-132 | an element no larger than all of an ascending sequence can go in front of it |
| HeapOrder.InsertBeforeHead | Heap.java:113-132 | an element no larger than the head of an ascending sequence can go in front of it |
| HeapOrder.InsertAfterHead | Heap.java:113-132 | an element greater than the head goes after it: the result is ascending with the elements of both |
| HeapOrder.Sort | Heap.java:113-132 | the reference sort is ascending and a permutation of its input |
| HeapOrder.SortedUnique | Heap.java:113-132 | two ascending sequences with the same elements are identical, so the snapshot order is determined |
| HeapOrder.MinimumOfSorted | Heap.java:113-132 | the head of an ascending sequence is no larger than any of its elements |
| HeapOrder.MultisetTail | Heap.java:118 | the elements after the first are the elements less one copy of the first |
| HeapOrder.SortedTail | Heap.java:113-132 | the tail of an ascending sequence is ascending |
| HeapOrder.SortedIsSort | Heap.java:113-132 | any ascending permutation of the contents is the reference sort of them |
| HeapOrder.Encodings | Heap.java:119 | one Task.toString per task, in the same order |
| HeapOrder.SnapshotOfSameContents | Heap.java:113-132 | the snapshot depends only on the multiset of the contents, not on their arrangement |
| HeapOrder.Snapshot | Heap.java:113-132 | the text toString returns: the records of the tasks in ascending order joined by '='; ToString and Drain are proved to return it, SnapshotOfSameContents that it depends only on the contents |
| HeapOrder.EncodingsSnoc | Heap.java:119-123 | one more task adds its text at the end of the encodings |
| Heaps.DecodeLine | Heap.java:201-202 | a line fails to decode exactly when it has fewer than two ',' fields or the date parser refuses the second; otherwise the first field is the name and the date is what the parser returned for the second |
| Heaps.Decoded | Heap.java:200-203 | one task per line, each the decoding of its line |
| Heaps.DecodeEncode | Heap.java:201-202 | a saved record decodes back to its task when the name holds no separator and the date parser reads the date text back |
| Heaps.SavedLinesOfSnapshot | Heap.java:215-222 | corrected saveHeap: with no '=' in any name, the saved lines are the records of the tasks in ascending order, one per task |
| Heaps.DecodeEncodings | Heap.java:200-203 | every record of a list of tasks decodes back to its task, so the decoded list is the list |
| Heaps.SavedLinesAsWritten | Heap.java:216 | saveHeap's lines as written; EmptySaveBreaksLoad shows the empty-heap case |
| Heaps.SavedLines | Heap.java:215-222 | saveHeap's lines, corrected to none for an empty heap; SavedLinesOfSnapshot states they are the ascending records |
| Heaps.SavedLinesAreOneLine | Heap.java:201-221 | every record of tasks with writable names holds no line terminator, so println writes it as one line and nextLine reads it back whole |
| Heaps.SaveLoadRoundTrip | Heap.java:192-227 | for names with no ',', '=' or line terminator, the saved lines each are one line, every one decodes, and loading them gives back every task, in ascending order |
| Heaps.EmptySaveBreaksLoad | Heap.java:201-216 | as written, saving an empty heap yields one empty line, and that line cannot be decoded: it has no date field |
| Heaps.DrainStep | Heap.java:117-125 | one round of the draining loop keeps the removed tasks ascending and no larger than the rest, counts every task once, and extends the text by the record |
| Heaps.DrainOrderStep | Heap.java:118-124 | removing a smallest task keeps the removed tasks ascending and no larger than those left |
| Heaps.MultisetMoveStep | Heap.java:118-124 | moving the removed task from the heap to the drained list keeps the combined multiset |
| Heaps.SnapshotTextStep | Heap.java:119-123 | the text so far plus the next record is the joined text of the tasks removed so far |
| Heaps.DecodedSnoc | Heap.java:200-203 | one more decodable line appends its task to the decoded tasks |
| Heaps.DecodedPrefixStep | Heap.java:200-203 | the first i+1 lines all decode, and their tasks are those of the first i lines followed by the task of line i, when line i decodes |
| Heaps.PrefixSnoc | Heap.java:127-129 | one more element of a prefix adds it to the prefix's multiset |
| Heaps.Heap.Valid | Heap.java:8-19 | the heap property of the stored tasks; every method keeps it |
| Heaps.Heap.constructor | Heap.java:29-33 | a new heap is empty and valid (the loading it starts with is LoadHeap) |
| Heaps.Heap.GetSize | Heap.java:40-42 | getSize is the number of stored tasks |
| Heaps.Heap.IsEmpty | Heap.java:49-51 | isEmpty exactly when the size is zero |
| Heaps.Heap.GetItem | Heap.java:89-91 | getItem returns a stored task |
| Heaps.Heap.GetCurrent | Heap.java:138-140 | getCurrent is the root, and in a valid heap it is no larger than every stored task |
| Heaps.Heap.AddItem | Heap.java:98-107 | addItem keeps the heap property, grows the heap by one and adds exactly the item |
| Heaps.Heap.RemoveItem | Heap.java:147-187 | removeItem returns the old root, a smallest task, shrinks the heap by one, removes exactly that task and keeps the heap property |
| Heaps.Heap.SiftDown | Heap.java:154-185 | removeItem's loop turns the sift-down invariant at the root into the heap property, keeping length and contents |
| Heaps.Heap.ToString | Heap.java:113-132 | toString returns the ascending snapshot text of the old contents, and the heap is valid with the same tasks afterwards |
| Heaps.Heap.Drain | Heap.java:113-125 | the draining loop empties the heap, the removed tasks come out in ascending order, and the text is the snapshot of the old contents |
| Heaps.Heap.AddAll | Heap.java:127-129 | adding the drained tasks back keeps the heap property and adds exactly those tasks |
| Heaps.Heap.TwoSnapshots | Heap.java:113-132 | two toString calls in a row return the same text and leave the same tasks |
| Heaps.Heap.SaveHeap | Heap.java:215-227 | saveHeap produces the lines of the ascending snapshot (corrected for the empty heap) and leaves the same tasks |
| Heaps.Heap.LoadHeap | Heap.java:192-210 | loadHeap adds the task of every line when all lines decode; otherwise it stops at the first bad line, having added exactly the tasks of the lines before it |
| Heaps.LeastOfThree | Heap.java:147-148 | of three tasks, the one strictly below the other two is the only smallest one |
| Heaps.LeastOfTwo | Heap.java:147-148 | of two tasks, the one strictly below the other is the only smallest one |
| Heaps.ScenarioOrder | Task.java:72-81 | ("Call", 15 Feb 2023 08:00) precedes ("Email", 1 Mar 2023 10:15), which precedes ("Report", 1 Mar 2023 10:15): date first, then name |
| Heaps.ExtractionScenario | Heap.java:98-187 | inserting Report, Email and Call and removing three times yields Call, Email, Report when they are so ordered |

## Left out

- File I/O: `File`, `Scanner`, `PrintWriter` and the `FileNotFoundException` handlers are not modelled. `SaveHeap` returns the lines that would be written, and `LoadHeap` takes the lines that were read. A missing file is the same as no lines.
- `new Date(String)`, the JDK's lenient and locale-dependent date parser, is not part of this model. `LoadHeap` takes it as a parameter `parseDate`. The round-trip lemmas assume it reads `Task.toString`'s date text back to the same date. Whether the real parser does so is outside the model.
- `java.util.Date` is modelled by its five fields at minute precision. Seconds, milliseconds, time zones and the normalisation of out-of-range fields are left out. `DateCompare` compares fields, which matches `Date.compareTo` on instants only for fields in their calendar ranges (`DateCompareIsChronological`).
- The generic `T extends Comparable<T>` is instantiated at `Task`, the only type the program uses. `loadHeap` itself builds `Task` objects.
- `Heap()` both creates an empty heap and loads the file. The model splits this into the constructor and `LoadHeap`.
- Exceptions are not modelled as exceptions:
  - `getCurrent` and `removeItem` on an empty heap, and `getItem` out of range, throw `ArrayIndexOutOfBoundsException`. The model states these as preconditions (non-empty, index in range).
  - A line that fails to decode throws out of `loadHeap`. The model returns the index of that line.
- Indices are unbounded naturals. The source's 32-bit `int` overflow of `2*i+2` would need more than 2^30 tasks and is not modelled.
- Characters are Dafny `char`. No UTF-16 surrogate pairs and no locale behaviour are modelled.
- `src/Window.java`, the Swing interface, is not part of this model. It only calls the heap's public methods. It replaces ',' and '=' in names (src/Window.java:601-603) but not '\r', U+0085, U+2028 or U+2029. The round trip therefore requires `NoSeparators`: no ',', no '=' and no line terminator. A name the window lets through with one of those characters is printed as one line and read back as two, and the first has no date field.
- `Scanner`'s line splitting is not modelled. `LoadHeap` takes the lines as given. `SaveLoadRoundTrip` proves that every saved line holds no line terminator, which is why those lines are the ones `nextLine` returns.
- Three helper methods carry no separate source method; each is a loop of the named Java method, proved on its own:
  - `SiftDown` is the loop of `removeItem`;
  - `Drain` is the first loop of `toString`;
  - `AddAll` is the second loop of `toString`.
- Heaps.Heap.RemoveItem: the contract gives the contents and the heap property afterwards, not the exact arrangement. Tasks that compare equal are equal values, so no tie-break layout is observable in what the heap returns.
- Heaps.Heap.ToString: the arrangement after the re-insertions is not stated, only the contents and the heap property.
- Heaps.Heap.GetItem: states that the result is a stored task, not the particular index.
- Heaps.Heap.SaveHeap: uses the corrected line split (`SavedLines`, no line for an empty heap). The code as written is modelled by `SavedLinesAsWritten` (see Findings).
- Heaps.ExtractionScenario: it is stated for any three tasks in the scenario's order. `ScenarioOrder` shows the concrete Report/Email/Call tasks are in that order.

## Findings

| source | as written | input that shows it | evidently intended | confidence | as-written member | corrected member |
|---|---|---|---|---|---|---|
| Heap.java:216 | `saveHeap` splits `toString()` at "="; for an empty heap `"".split("=")` is `[""]`, so one empty line is written, and `loadHeap` (Heap.java:201-202) then reads `"".split(",")[1]`, which is out of bounds, so the next start-up throws | an empty heap saved on quit (the window's quit button always saves) | an empty heap saves no lines, and save followed by load gives back the contents | not executed | Heaps.EmptySaveBreaksLoad | Heaps.SaveLoadRoundTrip |
