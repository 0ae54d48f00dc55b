/**
 The storage codec of the task list. `Encode` turns the list into text, one
 record per task:

     <type> | <done> | <description> | <date>

 and `Decode` turns one such line back into a task by reading fixed offsets.
 The clock read that supplies the first fallback date and the platform line
 separator are parameters.
 */
module StorageDataParser {
  import opened Optional
  import opened Text
  import opened Tasks

  const SpaceAndSeparator: string := " | "
  const TaskTypeIndex: nat := 0
  const DoneTypeIndex: nat := 4
  const DescriptionIndex: nat := 8

  /** The done flag as written: '1' for a finished task, '0' otherwise. */
  function DoneFlag(done: bool): (flag: char)
    ensures flag == '1' || flag == '0'
    ensures flag == '1' <==> done
  {
    if done then '1' else '0'
  }

  /**
   The date the encoder holds after visiting `t`: an Event or Deadline replaces
   it with its own date, a ToDo leaves the carried one in place.
   */
  function NextTimings(t: Task, carried: string): (r: string)
    ensures IsTimed(t) ==> r == OwnTimings(t)
    ensures t.ToDo? ==> r == carried
  {
    match t
    case Event(_, _, at) => at
    case Deadline(_, _, dueBy) => dueBy
    case ToDo(_, _) => carried
  }

  /** One record without its terminator; `timings` is the date written in the last field. */
  function Record(t: Task, timings: string): (line: string)
    ensures |line| == DescriptionIndex + |t.description| + |SpaceAndSeparator| + |timings|
    ensures line[TaskTypeIndex] == TypeCode(t) && line[DoneTypeIndex] == DoneFlag(t.done)
  {
    [TypeCode(t)] + SpaceAndSeparator + [DoneFlag(t.done)] + SpaceAndSeparator
      + t.description + SpaceAndSeparator + timings
  }

  /**
   The encoder's layout agrees with the decoder's offsets: the type tag sits
   at offset 0, the done flag at offset 4, and the description field starts
   at offset 8, each pair of fields separated by " | ".
   */
  lemma RecordOffsets(t: Task, timings: string)
    ensures var line := Record(t, timings);
            && |line| == DescriptionIndex + |t.description| + |SpaceAndSeparator| + |timings|
            && line[TaskTypeIndex] == TypeCode(t)
            && line[DoneTypeIndex] == DoneFlag(t.done)
            && line[TaskTypeIndex + 1..DoneTypeIndex] == SpaceAndSeparator
            && line[DoneTypeIndex + 1..DescriptionIndex] == SpaceAndSeparator
            && line[DescriptionIndex..] == t.description + SpaceAndSeparator + timings
  {
    var head := [TypeCode(t)] + SpaceAndSeparator + [DoneFlag(t.done)] + SpaceAndSeparator;
    var body := t.description + SpaceAndSeparator + timings;
    assert |head| == DescriptionIndex;
    assert Record(t, timings) == head + body;
    assert head[TaskTypeIndex + 1..DoneTypeIndex] == SpaceAndSeparator;
    assert head[DoneTypeIndex + 1..DescriptionIndex] == SpaceAndSeparator;
  }

  /**
   The loop of the encoder from some position on: `carried` is the date the
   loop holds on entry. Absent entries are skipped and leave the date alone.
   */
  function EncodeFrom(tasks: seq<Option<Task>>, carried: string, nl: string): (text: string)
    decreases |tasks|
  {
    if |tasks| == 0 then ""
    else match tasks[0]
      case None => EncodeFrom(tasks[1..], carried, nl)
      case Some(t) =>
        var timings := NextTimings(t, carried);
        Record(t, timings) + nl + EncodeFrom(tasks[1..], timings, nl)
  }

  /**
   Encodes the whole list. `today` is the text of the current date, which the
   encoder holds before it has met any Event or Deadline.
   */
  function Encode(tasks: seq<Option<Task>>, today: string, nl: string): (text: string)
    ensures text == "" <==> forall i :: 0 <= i < |tasks| ==> tasks[i].None?
  {
    EncodeFromEmpty(tasks, today, nl);
    if |tasks| == 0 then "" else EncodeFrom(tasks, today, nl)
  }

  /** The loop writes nothing exactly when every entry it visits is absent. */
  lemma {:induction false} EncodeFromEmpty(tasks: seq<Option<Task>>, carried: string, nl: string)
    ensures EncodeFrom(tasks, carried, nl) == "" <==> forall i :: 0 <= i < |tasks| ==> tasks[i].None?
    decreases |tasks|
  {
    if |tasks| > 0 {
      assert forall i :: 0 < i < |tasks| ==> tasks[i] == tasks[1..][i - 1];
      match tasks[0]
      case None =>
        EncodeFromEmpty(tasks[1..], carried, nl);
      case Some(t) =>
        assert Record(t, NextTimings(t, carried))[0] == TypeCode(t);
    }
  }

  /**
   What decoding a line gives: a task, no task (the type character is none of
   T, E, D) or a malformed line (where the decoder would throw).
   */
  datatype DecodeResult = Parsed(task: Task) | NoTask | Malformed

  /** Builds the task a type character names, from fields already cut out of the line. */
  function Dispatch(code: char, done: bool, description: string, timing: string): (r: DecodeResult)
    ensures r != Malformed
    ensures r.Parsed? <==> code == 'T' || code == 'E' || code == 'D'
    ensures r.Parsed? ==> TypeCode(r.task) == code && r.task.description == description
                          && r.task.done == done
    ensures r.Parsed? && IsTimed(r.task) ==> OwnTimings(r.task) == timing
  {
    if code == 'T' then Parsed(ToDo(description, done))
    else if code == 'E' then Parsed(Event(description, done, timing))
    else if code == 'D' then Parsed(Deadline(description, done, timing))
    else NoTask
  }

  /**
   Decodes one line. The timing is cut out for every type, ToDo included, so
   a line whose first '|' after offset 8 is its last character is malformed
   whatever its type. A decoded task takes its type from offset 0 and is done
   exactly when offset 4 holds '1'; a line that gets past the cuts gives no
   task exactly when its type character is none of T, E, D.
   */
  function Decode(line: string): (r: DecodeResult)
    ensures |line| < DescriptionIndex ==> r == Malformed
    ensures r.Parsed? ==> TypeCode(r.task) == line[TaskTypeIndex]
                          && r.task.done == (line[DoneTypeIndex] == '1')
    ensures r != Malformed ==> (r == NoTask <==> line[TaskTypeIndex] !in "TED")
  {
    if |line| < DescriptionIndex then Malformed
    else
      var taskType := line[TaskTypeIndex];
      var isDone := line[DoneTypeIndex];
      var rest := line[DescriptionIndex..];
      match IndexOf(rest, '|')
      case None => Malformed
      case Some(bar) =>
        if bar + 2 > |rest| then Malformed
        else
          var description := Trim(rest[..bar]);
          var timing := Trim(rest[bar + 2..]);
          Dispatch(taskType, isDone == '1', description, timing)
  }

  /**
   Exactly the lines with a '|' from offset 8 on and at least one character
   after the first such '|' escape the malformed outcome: a shorter line, or
   one with no '|' there, is where the decoder would throw.
   */
  lemma DecodeOutcomes(line: string)
    ensures Decode(line) != Malformed <==>
              && |line| >= DescriptionIndex
              && '|' in line[DescriptionIndex..]
              && DescriptionIndex + IndexOf(line[DescriptionIndex..], '|').value + 2 <= |line|
  {
  }

  /**
   The decoder restated in the coordinates of the line itself: with `k` the
   first '|' at or after offset 8, the description is the trimmed text between
   offset 8 and `k`, the timing the trimmed text from `k + 2` on, and a line
   ending right after that '|' is malformed.
   */
  lemma DecodeAtFirstBar(line: string, k: nat)
    requires DescriptionIndex <= k < |line| && line[k] == '|'
    requires '|' !in line[DescriptionIndex..k]
    ensures k + 2 > |line| ==> Decode(line) == Malformed
    ensures k + 2 <= |line| ==>
              Decode(line) == Dispatch(line[TaskTypeIndex], line[DoneTypeIndex] == '1',
                                       Trim(line[DescriptionIndex..k]), Trim(line[k + 2..]))
  {
    var rest := line[DescriptionIndex..];
    var bar := k - DescriptionIndex;
    assert rest[bar] == '|';
    assert rest[..bar] == line[DescriptionIndex..k];
    IndexOfFirst(rest, '|', bar);
    if k + 2 <= |line| {
      assert rest[bar + 2..] == line[k + 2..];
      assert Decode(line) == Dispatch(line[TaskTypeIndex], line[DoneTypeIndex] == '1',
                                      Trim(rest[..bar]), Trim(rest[bar + 2..]));
    }
  }
}
