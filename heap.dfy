/** The min-heap of tasks: a growable sequence read as a complete binary
    tree, changed in place by insertion and removal of the root, plus the
    text it is saved as and the lines it is loaded from. */
module Heaps {
  import opened Strings
  import opened Tasks
  import opened HeapOrder

  datatype Option<T> = None | Some(value: T)

  datatype Result<T, E> = Ok(value: T) | Err(error: E)

  /** Why loadHeap stops at a line. */
  datatype LoadError =
    | MissingDateField  // the line has no second ',' field: readLines[1] is out of bounds
    | UnparsableDate    // the date text is refused by the date parser

  // ---- Lines of the task file (saveHeap, loadHeap) ----

  /** The lines saveHeap writes for a snapshot, as written: String.split at
      '='. For the empty snapshot this is one empty line. */
  function SavedLinesAsWritten(snapshot: string): seq<string>
  {
    Split(snapshot, '=')
  }

  /** The lines saveHeap should write: one per record, none at all for an
      empty heap. */
  function SavedLines(snapshot: string): seq<string>
  {
    if snapshot == "" then [] else Split(snapshot, '=')
  }

  /** What loadHeap makes of one line: the first ',' field is the name, the
      second is handed to the date parser. */
  function DecodeLine(line: string, parseDate: string -> Option<Date>): (r: Result<Task, LoadError>)
    ensures r.Err? <==> |Split(line, ',')| < 2 || parseDate(Split(line, ',')[1]).None?
    ensures r.Ok? ==> |Split(line, ',')| >= 2 && r.value.name == Split(line, ',')[0]
    ensures r.Ok? ==> parseDate(Split(line, ',')[1]) == Some(r.value.date)
  {
    var readLines := Split(line, ',');
    if |readLines| < 2 then Err(MissingDateField)
    else match parseDate(readLines[1])
      case None => Err(UnparsableDate)
      case Some(d) => Ok(Task(readLines[0], d))
  }

  /** Every line decodes to a task. */
  predicate AllDecode(lines: seq<string>, parseDate: string -> Option<Date>)
  {
    forall i :: 0 <= i < |lines| ==> DecodeLine(lines[i], parseDate).Ok?
  }

  /** The tasks decoded from lines that all decode. */
  function Decoded(lines: seq<string>, parseDate: string -> Option<Date>): (r: seq<Task>)
    requires AllDecode(lines, parseDate)
    ensures |r| == |lines|
    ensures forall i :: 0 <= i < |lines| ==> DecodeLine(lines[i], parseDate) == Ok(r[i])
  {
    seq(|lines|, i requires 0 <= i < |lines| && DecodeLine(lines[i], parseDate).Ok? =>
      DecodeLine(lines[i], parseDate).value)
  }

  /** A saved line comes back as the task it was written from, when the
      name holds no separator and the date parser reads the date text back. */
  lemma DecodeEncode(t: Task, parseDate: string -> Option<Date>)
    requires NoSeparators(t.name)
    requires parseDate(DateText(t.date)) == Some(t.date)
    ensures DecodeLine(Encode(t), parseDate) == Ok(t)
  {
    EncodeFields(t);
  }

  /** When no name holds '=', the saved lines of a snapshot are the tasks'
      encodings in ascending order, one line per task. */
  lemma SavedLinesOfSnapshot(contents: seq<Task>)
    requires forall t :: t in contents ==> '=' !in t.name
    ensures SavedLines(Snapshot(contents)) == Encodings(Sort(contents))
  {
    var v := Sort(contents);
    var parts := Encodings(v);
    forall i | 0 <= i < |parts| ensures '=' !in parts[i] && |parts[i]| > 0 {
      assert v[i] in multiset(contents);
      EncodeHasNoRecordSeparator(v[i]);
    }
    if |parts| > 0 {
      assert |Join(parts, '=')| > 0 by {
        if |parts| > 1 { assert Join(parts, '=')[|parts[0]|] == '='; }
      }
      SplitJoin(parts, '=');
    }
  }

  /** Each encoding in a list of tasks decodes back to its task. */
  lemma DecodeEncodings(v: seq<Task>, parseDate: string -> Option<Date>)
    requires forall t :: t in v ==> NoSeparators(t.name)
    requires forall t :: t in v ==> parseDate(DateText(t.date)) == Some(t.date)
    ensures forall i :: 0 <= i < |v| ==> DecodeLine(Encodings(v)[i], parseDate) == Ok(v[i])
    ensures Decoded(Encodings(v), parseDate) == v
  {
    forall i | 0 <= i < |v| ensures DecodeLine(Encodings(v)[i], parseDate) == Ok(v[i]) {
      DecodeEncode(v[i], parseDate);
    }
  }

  /** The round trip the task file exists for: loading the lines saved from
      a heap gives back every task, in ascending order. */
  lemma SaveLoadRoundTrip(contents: seq<Task>, parseDate: string -> Option<Date>, lines: seq<string>)
    requires forall t :: t in contents ==> NoSeparators(t.name)
    requires forall t :: t in contents ==> parseDate(DateText(t.date)) == Some(t.date)
    requires lines == SavedLines(Snapshot(contents))
    ensures forall i :: 0 <= i < |lines| ==> OneLine(lines[i])
    ensures AllDecode(lines, parseDate)
    ensures Decoded(lines, parseDate) == Sort(contents)
  {
    var v := Sort(contents);
    SavedLinesOfSnapshot(contents);
    forall t | t in v ensures t in contents {
      assert t in multiset(v);
    }
    SavedLinesAreOneLine(v);
    DecodeEncodings(v, parseDate);
  }

  /** Every record of tasks with writable names is one line, so the lines
      saveHeap prints are the lines Scanner.nextLine reads back. */
  lemma SavedLinesAreOneLine(v: seq<Task>)
    requires forall t :: t in v ==> NoSeparators(t.name)
    ensures forall i :: 0 <= i < |v| ==> OneLine(Encodings(v)[i])
  {
    forall i | 0 <= i < |v| ensures OneLine(Encodings(v)[i]) {
      EncodeIsOneLine(v[i]);
    }
  }

  /** As written, saving an empty heap writes one empty line, and loading
      that line fails: it has no date field. */
  lemma EmptySaveBreaksLoad(parseDate: string -> Option<Date>)
    ensures SavedLinesAsWritten(Snapshot([])) == [""]
    ensures DecodeLine("", parseDate) == Err(MissingDateField)
  {
  }

  /** One round of toString's draining loop keeps the removed tasks in
      ascending order and no larger than any task still in the heap, keeps
      all the tasks accounted for, and keeps the text the snapshot text of
      the removed tasks, followed by an '=' while tasks remain. */
  lemma DrainStep(v: seq<Task>, before: seq<Task>, r: Task, after: seq<Task>, s: string)
    requires Sorted(v)
    requires v != [] ==> forall y :: y in before ==> LessEq(v[|v| - 1], y)
    requires r in before && forall y :: y in before ==> LessEq(r, y)
    requires multiset(after) == multiset(before) - multiset{r}
    requires s == Join(Encodings(v), '=') + (if v != [] && before != [] then "=" else "")
    ensures Sorted(v + [r])
    ensures forall y :: y in after ==> LessEq(r, y)
    ensures multiset(v + [r]) + multiset(after) == multiset(v) + multiset(before)
    ensures s + Encode(r) == Join(Encodings(v + [r]), '=')
  {
    DrainOrderStep(v, before, r, after);
    MultisetMoveStep(v, before, r, after);
    SnapshotTextStep(v, r, s);
  }

  lemma DrainOrderStep(v: seq<Task>, before: seq<Task>, r: Task, after: seq<Task>)
    requires Sorted(v)
    requires v != [] ==> forall y :: y in before ==> LessEq(v[|v| - 1], y)
    requires r in before && forall y :: y in before ==> LessEq(r, y)
    requires multiset(after) == multiset(before) - multiset{r}
    ensures Sorted(v + [r])
    ensures forall y :: y in after ==> LessEq(r, y)
  {
    forall y | y in after ensures y in before {
      assert y in multiset(after);
    }
    if v != [] {
      forall i | 0 <= i < |v| ensures LessEq(v[i], r) {
        if i < |v| - 1 {
          CompareTransitive(v[i], v[|v| - 1], r);
        }
      }
    }
  }

  lemma MultisetMoveStep(v: seq<Task>, before: seq<Task>, r: Task, after: seq<Task>)
    requires r in before
    requires multiset(after) == multiset(before) - multiset{r}
    ensures multiset(v + [r]) + multiset(after) == multiset(v) + multiset(before)
  {
    assert r in multiset(before);
  }

  /** Appending one more task's text to toString's text so far gives the
      snapshot text of the tasks removed so far. */
  lemma SnapshotTextStep(v: seq<Task>, r: Task, s: string)
    requires s == Join(Encodings(v), '=') + (if v != [] then "=" else "")
    ensures s + Encode(r) == Join(Encodings(v + [r]), '=')
  {
    EncodingsSnoc(v, r);
    if v != [] {
      JoinSnoc(Encodings(v), Encode(r), '=');
    }
  }

  /** One more line that decodes adds its task at the end of the decoded ones. */
  lemma DecodedSnoc(front: seq<string>, line: string, parseDate: string -> Option<Date>)
    requires AllDecode(front, parseDate)
    requires DecodeLine(line, parseDate).Ok?
    ensures AllDecode(front + [line], parseDate)
    ensures Decoded(front + [line], parseDate) == Decoded(front, parseDate) + [DecodeLine(line, parseDate).value]
  {
    var b := front + [line];
    forall k | 0 <= k < |b|
      ensures DecodeLine(b[k], parseDate).Ok?
    {
      if k < |front| {
        assert b[k] == front[k];
      }
    }
    var r := DecodeLine(line, parseDate).value;
    var da, db := Decoded(front, parseDate), Decoded(b, parseDate);
    forall k | 0 <= k < |front|
      ensures db[k] == da[k]
    {
      assert b[k] == front[k];
    }
    assert db == da + [r];
  }

  /** The same step stated on prefixes of the file's lines. */
  lemma DecodedPrefixStep(lines: seq<string>, i: nat, parseDate: string -> Option<Date>)
    requires i < |lines| && AllDecode(lines[..i], parseDate)
    requires DecodeLine(lines[i], parseDate).Ok?
    ensures AllDecode(lines[..i + 1], parseDate)
    ensures Decoded(lines[..i + 1], parseDate) == Decoded(lines[..i], parseDate) + [DecodeLine(lines[i], parseDate).value]
  {
    var front, line := lines[..i], lines[i];
    assert lines[..i + 1] == front + [line];
    DecodedSnoc(front, line, parseDate);
  }

  lemma PrefixSnoc(v: seq<Task>, k: nat)
    requires k < |v|
    ensures multiset(v[..k + 1]) == multiset(v[..k]) + multiset{v[k]}
  {
    assert v[..k + 1] == v[..k] + [v[k]];
  }

  // ---- The heap ----

  class Heap {
    /** taskList: the elements, index 0 the root. */
    var taskList: seq<Task>

    /** The object invariant: the elements form a min-heap. */
    ghost predicate Valid()
      reads this
    {
      IsHeap(taskList)
    }

    /** A heap with no elements. Heap() then fills it from the task file,
        which LoadHeap models. */
    constructor ()
      ensures Valid() && taskList == []
    {
      taskList := [];
    }

    /** getSize: the number of stored tasks. */
    function GetSize(): (n: nat)
      reads this
      ensures n == |multiset(taskList)|
    {
      |taskList|
    }

    /** isEmpty: no task is stored. */
    function IsEmpty(): (e: bool)
      reads this
      ensures e <==> GetSize() == 0
    {
      taskList == []
    }

    /** getItem: the task at index `i`, one of the stored tasks. */
    function GetItem(i: nat): (t: Task)
      reads this
      requires i < |taskList|
      ensures t in multiset(taskList)
    {
      taskList[i]
    }

    /** getCurrent: the root, which in a valid heap is a smallest task. */
    function GetCurrent(): (t: Task)
      reads this
      requires taskList != []
      ensures t == taskList[0]
      ensures Valid() ==> forall x :: x in taskList ==> LessEq(t, x)
    {
      RootIsMinimumAll(taskList);
      taskList[0]
    }

    /** addItem: append the item, let greater parents move down into the
        hole, then put the item into the hole. */
    method AddItem(i: Task)
      requires Valid()
      modifies this
      ensures Valid()
      ensures |taskList| == |old(taskList)| + 1
      ensures multiset(taskList) == multiset(old(taskList)) + multiset{i}
    {
      SiftUpStart(taskList, i);
      taskList := taskList + [i];
      var index: nat := |taskList| - 1;
      while index > 0 && Compare(GetItem(PLoc(index)), i) > 0
        invariant |taskList| == |old(taskList)| + 1 && index < |taskList|
        invariant SiftUpInv(taskList[index := i], index)
        invariant multiset(taskList[index := i]) == multiset(old(taskList)) + multiset{i}
        decreases index
      {
        SiftUpHole(taskList, index, i);
        taskList := taskList[index := GetItem(PLoc(index))];
        index := PLoc(index);
      }
      SiftUpDone(taskList[index := i], index);
      taskList := taskList[index := i];
    }

    /** removeItem: take the root; move the last element to the root and
        let it sink (SiftDown). */
    method RemoveItem() returns (min: Task)
      requires Valid() && taskList != []
      modifies this
      ensures Valid()
      ensures min == old(taskList)[0]
      ensures forall x :: x in old(taskList) ==> LessEq(min, x)
      ensures |taskList| == |old(taskList)| - 1
      ensures multiset(taskList) == multiset(old(taskList)) - multiset{min}
    {
      RootIsMinimumAll(taskList);
      min := taskList[0];
      var index: nat := |taskList| - 1;
      var last := taskList[index];
      if index > 0 {
        RemoveRootStart(taskList);
      }
      taskList := taskList[..index];
      if index > 0 {
        taskList := taskList[0 := last];
        SiftDown();
      }
    }

    /** The loop of removeItem: let smaller children move up into the hole
        left by the new root, then put the root into the hole. */
    method SiftDown()
      requires taskList != [] && SiftDownInv(taskList, 0)
      modifies this
      ensures Valid()
      ensures |taskList| == |old(taskList)|
      ensures multiset(taskList) == multiset(old(taskList))
    {
      var root := taskList[0];
      var end := |taskList| - 1;
      var index: nat := 0;
      assert taskList[index := root] == taskList;
      var done := false;
      while !done
        invariant |taskList| == |old(taskList)| && end == |taskList| - 1 && index < |taskList|
        invariant SiftDownInv(taskList[index := root], index)
        invariant multiset(taskList[index := root]) == multiset(old(taskList))
        invariant done ==> IsHeap(taskList[index := root])
        decreases |taskList| - index + (if done then 0 else 1)
      {
        if LCLoc(index) <= end {
          var child := GetItem(LCLoc(index));
          var childLoc := LCLoc(index);
          if RCLoc(index) <= end {
            if Compare(GetItem(RCLoc(index)), child) < 0 {
              child := GetItem(RCLoc(index));
              childLoc := RCLoc(index);
            }
          }
          if Compare(child, root) < 0 {
            SiftDownHole(taskList, index, root, childLoc);
            taskList := taskList[index := child];
            index := childLoc;
          } else {
            SiftDownHoleDone(taskList, index, root, childLoc);
            done := true;
          }
        } else {
          SiftDownHoleDone(taskList, index, root, 0);
          done := true;
        }
      }
      taskList := taskList[index := root];
    }

    /** toString: remove every task, joining their texts with '=' (Drain),
        then add them all back (AddAll). The text is the ascending snapshot
        of the contents, and the heap holds the same tasks afterwards. */
    method ToString() returns (s: string)
      requires Valid()
      modifies this
      ensures Valid()
      ensures multiset(taskList) == multiset(old(taskList))
      ensures s == Snapshot(old(taskList))
    {
      var v;
      s, v := Drain();
      AddAll(v);
    }

    /** toString's first loop: remove the tasks one by one, smallest first,
        appending each one's text and an '=' between neighbours. */
    method Drain() returns (s: string, v: seq<Task>)
      requires Valid()
      modifies this
      ensures Valid() && taskList == []
      ensures v == Sort(old(taskList))
      ensures s == Snapshot(old(taskList))
    {
      s := "";
      v := [];
      while GetSize() > 0
        invariant Valid()
        invariant multiset(v) + multiset(taskList) == multiset(old(taskList))
        invariant Sorted(v)
        invariant v != [] ==> forall y :: y in taskList ==> LessEq(v[|v| - 1], y)
        invariant s == Join(Encodings(v), '=') + (if v != [] && taskList != [] then "=" else "")
        decreases |taskList|
      {
        ghost var before := taskList;
        var removedItem := RemoveItem();
        DrainStep(v, before, removedItem, taskList, s);
        s := s + Encode(removedItem) + (if GetSize() != 0 then "=" else "");
        v := v + [removedItem];
      }
      SortedIsSort(v, old(taskList));
    }

    /** toString's second loop: add every task of `items` back, in order. */
    method AddAll(items: seq<Task>)
      requires Valid()
      modifies this
      ensures Valid()
      ensures multiset(taskList) == multiset(old(taskList)) + multiset(items)
    {
      for k := 0 to |items|
        invariant Valid()
        invariant multiset(taskList) == multiset(old(taskList)) + multiset(items[..k])
      {
        PrefixSnoc(items, k);
        AddItem(items[k]);
      }
      assert items[..|items|] == items;
    }

    /** Two toString calls in a row give the same text and leave the same
        tasks in the heap. */
    method TwoSnapshots() returns (first: string, second: string)
      requires Valid()
      modifies this
      ensures Valid()
      ensures multiset(taskList) == multiset(old(taskList))
      ensures first == second
    {
      ghost var start := taskList;
      first := ToString();
      ghost var middle := taskList;
      second := ToString();
      SnapshotOfSameContents(middle, start);
    }

    /** saveHeap: the lines written to the task file, one per task in
        ascending order (writing them is left out). The heap holds the
        same tasks afterwards. */
    method SaveHeap() returns (lines: seq<string>)
      requires Valid()
      modifies this
      ensures Valid()
      ensures multiset(taskList) == multiset(old(taskList))
      ensures lines == SavedLines(Snapshot(old(taskList)))
    {
      var heapContents := ToString();
      lines := SavedLines(heapContents);
    }

    /** loadHeap: add the task of each line of the task file in turn. A line
        that does not decode stops the load (the source throws there); its
        index is returned, and the tasks of the lines before it stay added. */
    method LoadHeap(lines: seq<string>, parseDate: string -> Option<Date>) returns (failedAt: Option<nat>)
      requires Valid()
      modifies this
      ensures Valid()
      ensures failedAt.None? ==>
        && AllDecode(lines, parseDate)
        && multiset(taskList) == multiset(old(taskList)) + multiset(Decoded(lines, parseDate))
      ensures failedAt.Some? ==>
        && failedAt.value < |lines|
        && DecodeLine(lines[failedAt.value], parseDate).Err?
        && AllDecode(lines[..failedAt.value], parseDate)
        && multiset(taskList) == multiset(old(taskList)) + multiset(Decoded(lines[..failedAt.value], parseDate))
    {
      failedAt := None;
      var i := 0;
      while i < |lines|
        invariant 0 <= i <= |lines|
        invariant Valid()
        invariant AllDecode(lines[..i], parseDate)
        invariant multiset(taskList) == multiset(old(taskList)) + multiset(Decoded(lines[..i], parseDate))
      {
        match DecodeLine(lines[i], parseDate)
        case Err(_) =>
          failedAt := Some(i);
          return;
        case Ok(t) =>
          DecodedPrefixStep(lines, i, parseDate);
          AddItem(t);
        i := i + 1;
      }
      assert lines[..i] == lines;
    }
  }

  /** Of three tasks the one strictly below the other two is the only one
      no larger than all three. */
  lemma LeastOfThree(s: seq<Task>, m: Task, t: Task, a: Task, b: Task)
    requires multiset(s) == multiset{a, b, t}
    requires m in s && forall x :: x in s ==> LessEq(m, x)
    requires Less(t, a) && Less(t, b)
    ensures m == t
  {
    assert t in multiset(s) && m in multiset(s);
    assert LessEq(m, t);
    if m != t {
      CompareAntisymmetric(t, m);
    }
  }

  /** Of two tasks the one strictly below the other is the only one no
      larger than both. */
  lemma LeastOfTwo(s: seq<Task>, m: Task, t: Task, a: Task)
    requires multiset(s) == multiset{a, t}
    requires m in s && forall x :: x in s ==> LessEq(m, x)
    requires Less(t, a)
    ensures m == t
  {
    assert t in multiset(s) && m in multiset(s);
    assert LessEq(m, t);
    if m != t {
      CompareAntisymmetric(t, m);
    }
  }

  /** The tasks ("Report", 1 March 2023 10:15), ("Email", 1 March 2023
      10:15) and ("Call", 15 February 2023 08:00) meet ExtractionScenario's
      requirement: chronological first, then by name between the two due at
      the same time. The dates use Date's own fields: years from 1900,
      months from 0. */
  lemma ScenarioOrder(report: Task, email: Task, call: Task)
    requires report == Task("Report", Date(123, 2, 1, 10, 15))
    requires email == Task("Email", Date(123, 2, 1, 10, 15))
    requires call == Task("Call", Date(123, 1, 15, 8, 0))
    ensures Less(call, email) && Less(call, report) && Less(email, report)
  {
    assert DateCompare(call.date, email.date) == -1;
    assert email.name[0] == 'E' && report.name[0] == 'R';
  }

  /** Three tasks inserted largest first come out of the heap smallest
      first, each removal giving the least of what is left. */
  method ExtractionScenario(report: Task, email: Task, call: Task) returns (first: Task, second: Task, third: Task)
    requires Less(call, email) && Less(call, report) && Less(email, report)
    ensures first == call && second == email && third == report
  {
    var heap := new Heap();
    heap.AddItem(report);
    heap.AddItem(email);
    heap.AddItem(call);
    ghost var s := heap.taskList;
    assert multiset(s) == multiset{report, email, call};
    first := heap.RemoveItem();
    LeastOfThree(s, first, call, report, email);
    s := heap.taskList;
    assert multiset(s) == multiset{report, email};
    second := heap.RemoveItem();
    LeastOfTwo(s, second, email, report);
    s := heap.taskList;
    third := heap.RemoveItem();
    assert third in multiset(s);
  }
}
