/**
 Properties of the storage codec: an independent, right-to-left description
 of what the encoder writes, the fact that absent entries leave no trace, and
 the round trip from tasks through text back to tasks.
 */
module CodecProperties {
  import opened Optional
  import opened Text
  import opened Tasks
  import opened StorageDataParser

  /**
   The date the encoder holds after the entries of `tasks`: the date of the
   last Event or Deadline among them, or `today` when there is none.
   */
  function LastTimings(tasks: seq<Option<Task>>, today: string): string
    decreases |tasks|
  {
    if |tasks| == 0 then today
    else
      var n := |tasks| - 1;
      if TimedEntry(tasks[n]) then OwnTimings(tasks[n].value) else LastTimings(tasks[..n], today)
  }

  /** With no Event or Deadline in the list the held date is still `today`. */
  lemma {:induction false} LastTimingsDefault(tasks: seq<Option<Task>>, today: string)
    requires forall j :: 0 <= j < |tasks| ==> !TimedEntry(tasks[j])
    ensures LastTimings(tasks, today) == today
    decreases |tasks|
  {
    if |tasks| > 0 {
      var n := |tasks| - 1;
      assert forall j :: 0 <= j < n ==> tasks[..n][j] == tasks[j];
      LastTimingsDefault(tasks[..n], today);
    }
  }

  /** Otherwise the held date is that of the last Event or Deadline in the list. */
  lemma {:induction false} LastTimingsIsLastTimed(tasks: seq<Option<Task>>, today: string, j: nat)
    requires j < |tasks| && TimedEntry(tasks[j])
    requires forall m :: j < m < |tasks| ==> !TimedEntry(tasks[m])
    ensures LastTimings(tasks, today) == OwnTimings(tasks[j].value)
    decreases |tasks|
  {
    var n := |tasks| - 1;
    if j < n {
      assert tasks[..n][j] == tasks[j];
      assert forall m :: j < m < n ==> tasks[..n][m] == tasks[m];
      LastTimingsIsLastTimed(tasks[..n], today, j);
    }
  }

  /**
   Reference description of the encoder's output: the record of entry `i`
   is written with the date held after entries `0..i`, so a ToDo gets the
   date of the nearest Event or Deadline before it, or `today`.
   */
  function EncodeSpec(tasks: seq<Option<Task>>, today: string, nl: string): string
    decreases |tasks|
  {
    if |tasks| == 0 then ""
    else
      var n := |tasks| - 1;
      EncodeSpec(tasks[..n], today, nl)
        + match tasks[n]
          case None => ""
          case Some(t) => Record(t, LastTimings(tasks, today)) + nl
  }

  /** Appending one entry updates the held date the way one loop iteration does. */
  lemma LastTimingsSnoc(p: seq<Option<Task>>, x: Option<Task>, today: string)
    ensures x.None? ==> LastTimings(p + [x], today) == LastTimings(p, today)
    ensures x.Some? ==> LastTimings(p + [x], today) == NextTimings(x.value, LastTimings(p, today))
  {
    assert (p + [x])[..|p|] == p;
  }

  /** Appending one entry appends its record, if any, to the reference text. */
  lemma EncodeSpecSnoc(p: seq<Option<Task>>, x: Option<Task>, today: string, nl: string)
    ensures x.None? ==> EncodeSpec(p + [x], today, nl) == EncodeSpec(p, today, nl)
    ensures x.Some? ==> EncodeSpec(p + [x], today, nl)
                        == EncodeSpec(p, today, nl) + (Record(x.value, LastTimings(p + [x], today)) + nl)
  {
    assert (p + [x])[..|p|] == p;
  }

  /**
   The encoder loop, entered with the date held after a prefix `p`, writes
   exactly what the reference description adds for the entries `s` after it.
   */
  lemma {:induction false} EncodeFromExtends(p: seq<Option<Task>>, s: seq<Option<Task>>, today: string, nl: string)
    ensures EncodeSpec(p + s, today, nl) == EncodeSpec(p, today, nl) + EncodeFrom(s, LastTimings(p, today), nl)
    decreases |s|
  {
    if |s| == 0 {
      assert p + s == p;
    } else {
      var x := s[0];
      var p' := p + [x];
      assert p' + s[1..] == p + s;
      assert s == [x] + s[1..];
      EncodeFromExtends(p', s[1..], today, nl);
      LastTimingsSnoc(p, x, today);
      EncodeSpecSnoc(p, x, today, nl);
      EncodeFromStep(x, s[1..], LastTimings(p, today), nl);
    }
  }

  /** The left-to-right encoder, threading its date, writes what the reference describes. */
  lemma EncodeMatchesSpec(tasks: seq<Option<Task>>, today: string, nl: string)
    ensures Encode(tasks, today, nl) == EncodeSpec(tasks, today, nl)
  {
    EncodeFromExtends([], tasks, today, nl);
    assert [] + tasks == tasks;
  }

  /** The record of a present entry follows the records of the entries before it. */
  lemma EncodeAppend(tasks: seq<Option<Task>>, t: Task, today: string, nl: string)
    ensures Encode(tasks + [Some(t)], today, nl)
            == Encode(tasks, today, nl) + Record(t, NextTimings(t, LastTimings(tasks, today))) + nl
  {
    EncodeMatchesSpec(tasks + [Some(t)], today, nl);
    EncodeMatchesSpec(tasks, today, nl);
    EncodeSpecSnoc(tasks, Some(t), today, nl);
    LastTimingsSnoc(tasks, Some(t), today);
  }

  /** The encoder loop skips absent entries without changing the date it carries. */
  lemma {:induction false} EncodeFromIgnoresAbsent(tasks: seq<Option<Task>>, carried: string, nl: string)
    ensures EncodeFrom(tasks, carried, nl) == EncodeFrom(Wrap(Present(tasks)), carried, nl)
    decreases |tasks|
  {
    if |tasks| > 0 {
      match tasks[0]
      case None =>
        assert Present(tasks) == Present(tasks[1..]);
        EncodeFromIgnoresAbsent(tasks[1..], carried, nl);
      case Some(t) =>
        var rest := Present(tasks[1..]);
        assert Wrap(Present(tasks)) == [Some(t)] + Wrap(rest);
        assert Wrap(Present(tasks))[1..] == Wrap(rest);
        EncodeFromIgnoresAbsent(tasks[1..], NextTimings(t, carried), nl);
    }
  }

  /** Absent entries produce no output: the list encodes as its present tasks alone. */
  lemma EncodeIgnoresAbsent(tasks: seq<Option<Task>>, today: string, nl: string)
    ensures Encode(tasks, today, nl) == Encode(Wrap(Present(tasks)), today, nl)
  {
    EncodeFromIgnoresAbsent(tasks, today, nl);
  }

  /**
   A task survives being written: its description holds no '|' and no white
   space at either end, and an Event or Deadline date has none at either end.
   */
  predicate Storable(t: Task) {
    && '|' !in t.description
    && Trimmed(t.description)
    && (IsTimed(t) ==> Trimmed(OwnTimings(t)))
  }

  /** No field of the task contains `c`. */
  predicate FreeOf(t: Task, c: char) {
    c !in t.description && (IsTimed(t) ==> c !in OwnTimings(t))
  }

  /** The type dispatch rebuilds a task from its own type code and fields. */
  lemma DispatchInvertsTypeCode(t: Task, timing: string)
    requires IsTimed(t) ==> timing == OwnTimings(t)
    ensures Dispatch(TypeCode(t), t.done, t.description, timing) == Parsed(t)
  {
    match t
    case ToDo(_, _) =>
    case Event(_, _, _) =>
    case Deadline(_, _, _) =>
  }

  /** In a record, the first '|' after offset 8 closes the description field. */
  lemma RecordLayout(t: Task, timings: string)
    requires '|' !in t.description
    ensures var line := Record(t, timings);
            var k := DescriptionIndex + |t.description| + 1;
            && k + 2 <= |line| && line[k] == '|'
            && line[DescriptionIndex..k] == t.description + " "
            && line[k + 2..] == timings
  {
    var line := Record(t, timings);
    RecordOffsets(t, timings);
    var rest := line[DescriptionIndex..];
    assert rest == t.description + " | " + timings;
    var bar := |t.description| + 1;
    var k := DescriptionIndex + bar;
    assert line[DescriptionIndex..k] == rest[..bar] == t.description + " ";
    assert line[k] == rest[bar] == '|';
    assert line[k + 2..] == rest[bar + 2..] == timings;
  }

  /**
   Decoding a record cuts out exactly the fields the encoder wrote: the
   description comes back whole and the date comes back trimmed.
   */
  lemma RecordFields(t: Task, timings: string)
    requires '|' !in t.description && Trimmed(t.description)
    ensures Decode(Record(t, timings)) == Dispatch(TypeCode(t), t.done, t.description, Trim(timings))
  {
    var line := Record(t, timings);
    var k := DescriptionIndex + |t.description| + 1;
    RecordLayout(t, timings);
    RecordOffsets(t, timings);
    DecodeAtFirstBar(line, k);
    TrimPaddedRight(t.description, " ");
    assert (line[DoneTypeIndex] == '1') == t.done;
  }

  /**
   Decoding the record the encoder writes for a storable task gives that
   task back, whatever date a ToDo carries.
   */
  lemma RecordRoundTrip(t: Task, carried: string)
    requires Storable(t)
    ensures Decode(Record(t, NextTimings(t, carried))) == Parsed(t)
  {
    var timings := NextTimings(t, carried);
    RecordFields(t, timings);
    if IsTimed(t) {
      TrimFixpoint(timings);
    }
    DispatchInvertsTypeCode(t, Trim(timings));
  }

  /** A record holds no line terminator unless one of its fields does. */
  lemma RecordFreeOfNewline(t: Task, timings: string)
    requires FreeOf(t, '\n')
    requires '\n' !in timings
    ensures '\n' !in Record(t, timings)
  {
  }

  /** A list the encoder can write and the reader can split back into one line per task. */
  predicate Loadable(tasks: seq<Option<Task>>) {
    forall i :: 0 <= i < |tasks| && tasks[i].Some? ==>
      Storable(tasks[i].value) && FreeOf(tasks[i].value, '\n')
  }

  /** Each line decodes to the task at the same position, and there are as many lines as tasks. */
  predicate DecodesTo(lines: seq<string>, ts: seq<Task>)
    decreases |lines|
  {
    |lines| == |ts|
    && (|lines| > 0 ==> Decode(lines[0]) == Parsed(ts[0]) && DecodesTo(lines[1..], ts[1..]))
  }

  /** Line `i` decodes to task `i`. */
  lemma {:induction false} DecodesToAt(lines: seq<string>, ts: seq<Task>, i: nat)
    requires DecodesTo(lines, ts) && i < |lines|
    ensures Decode(lines[i]) == Parsed(ts[i])
    decreases i
  {
    if i > 0 {
      DecodesToAt(lines[1..], ts[1..], i - 1);
      assert lines[1..][i - 1] == lines[i] && ts[1..][i - 1] == ts[i];
    }
  }

  /** Dropping the first entry keeps a list loadable. */
  lemma LoadableTail(tasks: seq<Option<Task>>)
    requires |tasks| > 0 && Loadable(tasks)
    ensures Loadable(tasks[1..])
  {
    forall i | 0 <= i < |tasks[1..]| && tasks[1..][i].Some?
      ensures Storable(tasks[1..][i].value) && FreeOf(tasks[1..][i].value, '\n')
    {
      assert tasks[1..][i] == tasks[i + 1];
    }
  }

  /** The records the encoder loop writes split back into lines that decode to the present tasks. */
  lemma {:induction false} EncodeFromLines(tasks: seq<Option<Task>>, carried: string)
    requires Loadable(tasks)
    requires '\n' !in carried
    ensures DecodesTo(SplitLines(EncodeFrom(tasks, carried, "\n")), Present(tasks))
    decreases |tasks|
  {
    if |tasks| > 0 {
      LoadableTail(tasks);
      match tasks[0]
      case None =>
        assert Present(tasks) == Present(tasks[1..]);
        EncodeFromLines(tasks[1..], carried);
      case Some(t) =>
        var timings := NextTimings(t, carried);
        var record := Record(t, timings);
        var rest := EncodeFrom(tasks[1..], timings, "\n");
        assert EncodeFrom(tasks, carried, "\n") == record + "\n" + rest;
        assert Present(tasks) == [t] + Present(tasks[1..]);
        RecordFreeOfNewline(t, timings);
        SplitLinesCons(record, rest);
        RecordRoundTrip(t, carried);
        EncodeFromLines(tasks[1..], timings);
        assert ([record] + SplitLines(rest))[1..] == SplitLines(rest);
    }
  }

  /**
   Whole-list round trip: splitting the encoded text into lines gives one line
   per present task, in order, and each line decodes to that task.
   */
  lemma EncodedListRoundTrip(tasks: seq<Option<Task>>, today: string)
    requires Loadable(tasks)
    requires '\n' !in today
    ensures var lines := SplitLines(Encode(tasks, today, "\n"));
            && |lines| == |Present(tasks)|
            && forall i :: 0 <= i < |lines| ==> Decode(lines[i]) == Parsed(Present(tasks)[i])
  {
    EncodeFromLines(tasks, today);
    var lines := SplitLines(Encode(tasks, today, "\n"));
    forall i | 0 <= i < |lines|
      ensures Decode(lines[i]) == Parsed(Present(tasks)[i])
    {
      DecodesToAt(lines, Present(tasks), i);
    }
  }

  /** The encoder loop writes one terminator per present task. */
  lemma {:induction false} EncodeFromTerminators(tasks: seq<Option<Task>>, carried: string)
    requires forall i :: 0 <= i < |tasks| && tasks[i].Some? ==> FreeOf(tasks[i].value, '\n')
    requires '\n' !in carried
    ensures Count(EncodeFrom(tasks, carried, "\n"), '\n') == |Present(tasks)|
    decreases |tasks|
  {
    if |tasks| > 0 {
      assert forall i :: 0 <= i < |tasks[1..]| ==> tasks[1..][i] == tasks[i + 1];
      match tasks[0]
      case None =>
        EncodeFromTerminators(tasks[1..], carried);
      case Some(t) =>
        var timings := NextTimings(t, carried);
        var record := Record(t, timings);
        var rest := EncodeFrom(tasks[1..], timings, "\n");
        RecordFreeOfNewline(t, timings);
        EncodeFromTerminators(tasks[1..], timings);
        CountConcat(record + "\n", rest, '\n');
        CountConcat(record, "\n", '\n');
    }
  }

  /** The encoded text holds exactly one terminator per present task. */
  lemma EncodeTerminatorCount(tasks: seq<Option<Task>>, today: string)
    requires forall i :: 0 <= i < |tasks| && tasks[i].Some? ==> FreeOf(tasks[i].value, '\n')
    requires '\n' !in today
    ensures Count(Encode(tasks, today, "\n"), '\n') == |Present(tasks)|
  {
    EncodeFromTerminators(tasks, today);
  }

  /** Unrolls the encoder loop by one entry. */
  lemma EncodeFromStep(x: Option<Task>, tasks: seq<Option<Task>>, carried: string, nl: string)
    ensures x.None? ==> EncodeFrom([x] + tasks, carried, nl) == EncodeFrom(tasks, carried, nl)
    ensures x.Some? ==> EncodeFrom([x] + tasks, carried, nl)
                        == Record(x.value, NextTimings(x.value, carried)) + nl
                           + EncodeFrom(tasks, NextTimings(x.value, carried), nl)
  {
    assert ([x] + tasks)[1..] == tasks;
  }

  /**
   A ToDo written after a Deadline, with a null between them, carries the
   Deadline's date, not today's.
   */
  lemma ToDoCarriesEarlierDate(d: Task, m: Task, today: string, nl: string)
    requires d.Deadline? && m.ToDo?
    ensures Encode([Some(d), None, Some(m)], today, nl)
            == Record(d, d.dueBy) + nl + Record(m, d.dueBy) + nl
  {
    EncodeFromStep(Some(m), [], d.dueBy, nl);
    EncodeFromStep(None, [Some(m)], d.dueBy, nl);
    EncodeFromStep(Some(d), [None, Some(m)], today, nl);
    assert [Some(d)] + [None, Some(m)] == [Some(d), None, Some(m)];
    assert [None] + [Some(m)] == [None, Some(m)];
    assert [Some(m)] + [] == [Some(m)];
  }

  /** A ToDo with no Event or Deadline before it is written with today's date. */
  lemma ToDoDefaultsToToday(p: seq<Option<Task>>, m: Task, today: string, nl: string)
    requires m.ToDo?
    requires forall j :: 0 <= j < |p| ==> !TimedEntry(p[j])
    ensures Encode(p + [Some(m)], today, nl) == Encode(p, today, nl) + Record(m, today) + nl
  {
    EncodeAppend(p, m, today, nl);
    LastTimingsDefault(p, today);
  }

  /**
   A ToDo written after entries whose last Event or Deadline is entry `j`
   carries that task's date.
   */
  lemma ToDoCarriesLastDate(p: seq<Option<Task>>, j: nat, m: Task, today: string, nl: string)
    requires m.ToDo?
    requires j < |p| && TimedEntry(p[j])
    requires forall i :: j < i < |p| ==> !TimedEntry(p[i])
    ensures Encode(p + [Some(m)], today, nl)
            == Encode(p, today, nl) + Record(m, OwnTimings(p[j].value)) + nl
  {
    EncodeAppend(p, m, today, nl);
    LastTimingsIsLastTimed(p, today, j);
  }

  /** A three-field ToDo line has no '|' after offset 8 and cannot be decoded. */
  lemma ThreeFieldToDoIsMalformed()
    ensures Decode("T | 1 | read book") == Malformed
  {
    var line := "T | 1 | read book";
    assert line[DescriptionIndex..] == "read book";
    assert '|' !in "read book";
  }

  /**
   A line whose first '|' from offset 8 on is its last character is
   malformed whatever its type, ToDo included, as the timing is always cut.
   */
  lemma BareTrailingBarIsMalformed(line: string, k: nat)
    requires DescriptionIndex <= k && k + 1 == |line| && line[k] == '|'
    requires '|' !in line[DescriptionIndex..k]
    ensures Decode(line) == Malformed
  {
    DecodeAtFirstBar(line, k);
  }

  /**
   A line that gets past every cut, but whose type character is none of
   T, E, D, decodes to no task.
   */
  lemma UnknownTypeIsNoTask(line: string, k: nat)
    requires DescriptionIndex <= k && k + 2 <= |line| && line[k] == '|'
    requires '|' !in line[DescriptionIndex..k]
    requires line[TaskTypeIndex] !in "TED"
    ensures Decode(line) == NoTask
  {
    DecodeAtFirstBar(line, k);
  }
}
