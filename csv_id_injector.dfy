/**
 * The CSV driver's line transform and its output-path rule. The input is the
 * list of lines `readLine` returns; ids come from the generator.
 */
module CsvIdInjector {

  import opened Wrappers
  import opened JavaStrings
  import opened Snowflake

  const PROCESSED_SUFFIX: string := "_processed"

  /** `getOutputFilePath`: `_processed` goes before the last `.` of the path, or at its end. */
  function OutputFilePath(inputPath: string): (r: string)
    ensures |r| == |inputPath| + 10
    ensures '.' !in inputPath ==> r == inputPath + "_processed"
    ensures '.' in inputPath ==>
      exists i :: 0 <= i < |inputPath| && inputPath[i] == '.' && '.' !in inputPath[i + 1..]
        && r == inputPath[..i] + "_processed" + inputPath[i..]
  {
    var dotIndex := LastIndexOf(inputPath, '.');
    if dotIndex == -1 then inputPath + PROCESSED_SUFFIX
    else inputPath[..dotIndex] + PROCESSED_SUFFIX + inputPath[dotIndex..]
  }

  /** The output path keeps the extension: it ends with everything from the input's last `.`. */
  lemma OutputFilePathKeepsExtension(inputPath: string, i: nat)
    requires i < |inputPath| && inputPath[i] == '.' && '.' !in inputPath[i + 1..]
    ensures var r := OutputFilePath(inputPath);
      r[|r| - (|inputPath| - i)..] == inputPath[i..] && r[..i] == inputPath[..i]
      && r[i..i + 10] == "_processed"
  {
    var r := OutputFilePath(inputPath);
    assert r == inputPath[..i] + "_processed" + inputPath[i..];
  }

  /** The data lines that survive: those that are not blank after `trim()`, in input order. */
  function NonBlank(lines: seq<string>): (r: seq<string>)
    ensures |r| <= |lines|
  {
    if lines == [] then []
    else
      var last := lines[|lines| - 1];
      NonBlank(lines[..|lines| - 1]) + (if IsBlank(last) then [] else [last])
  }

  /** No line that survives filtering is blank. */
  lemma {:induction false} NonBlankHasNoBlank(lines: seq<string>)
    ensures forall k :: 0 <= k < |NonBlank(lines)| ==> !IsBlank(NonBlank(lines)[k])
  {
    if lines != [] {
      NonBlankHasNoBlank(lines[..|lines| - 1]);
    }
  }

  /** Filtering distributes over concatenation, so it keeps the input order. */
  lemma {:induction false} NonBlankAppend(a: seq<string>, b: seq<string>)
    ensures NonBlank(a + b) == NonBlank(a) + NonBlank(b)
  {
    if b != [] {
      var b' := b[..|b| - 1];
      assert (a + b)[..|a + b| - 1] == a + b';
      assert (a + b)[|a + b| - 1] == b[|b| - 1];
      NonBlankAppend(a, b');
    } else {
      assert a + b == a;
    }
  }

  /** A line survives filtering exactly when it occurs in the input and is not blank. */
  lemma {:induction false} NonBlankMembers(lines: seq<string>, x: string)
    ensures x in NonBlank(lines) <==> x in lines && !IsBlank(x)
  {
    if lines != [] {
      var init := lines[..|lines| - 1];
      assert lines == init + [lines[|lines| - 1]];
      NonBlankMembers(init, x);
    }
  }

  /** Without blank lines, filtering changes nothing. */
  lemma {:induction false} NonBlankOfNonBlank(lines: seq<string>)
    requires forall k :: 0 <= k < |lines| ==> !IsBlank(lines[k])
    ensures NonBlank(lines) == lines
  {
    if lines != [] {
      NonBlankOfNonBlank(lines[..|lines| - 1]);
    }
  }

  /** `<id>,<line>` for each surviving line and its id, pairing them up in order. */
  function Tagged(rows: seq<string>, ids: seq<int>): (r: seq<string>)
    requires |rows| == |ids|
    ensures |r| == |rows|
  {
    if rows == [] then []
    else Tagged(rows[..|rows| - 1], ids[..|ids| - 1]) + [LongToString(ids[|ids| - 1]) + "," + rows[|rows| - 1]]
  }

  /** The k-th tagged line is the k-th id, a comma and the k-th line. */
  lemma {:induction false} TaggedAt(rows: seq<string>, ids: seq<int>, k: nat)
    requires |rows| == |ids| && k < |rows|
    ensures Tagged(rows, ids)[k] == LongToString(ids[k]) + "," + rows[k]
  {
    if k < |rows| - 1 {
      TaggedAt(rows[..|rows| - 1], ids[..|ids| - 1], k);
    }
  }

  /** Filtering one more line at the end. */
  lemma NonBlankSnoc(done: seq<string>, line: string)
    ensures NonBlank(done + [line]) == NonBlank(done) + (if IsBlank(line) then [] else [line])
  {
    assert (done + [line])[..|done|] == done;
  }

  /** Tagging one more line at the end. */
  lemma TaggedSnoc(rows: seq<string>, ids: seq<int>, row: string, id: int)
    requires |rows| == |ids|
    ensures Tagged(rows + [row], ids + [id]) == Tagged(rows, ids) + [LongToString(id) + "," + row]
  {
    assert (rows + [row])[..|rows|] == rows;
    assert (ids + [id])[..|ids|] == ids;
  }

  /** A blank data line leaves the filtered lines as they were. */
  lemma SkipBlankLine(data: seq<string>, i: nat)
    requires i < |data| && IsBlank(data[i])
    ensures NonBlank(data[..i + 1]) == NonBlank(data[..i])
  {
    PrefixExtend(data, i);
    NonBlankSnoc(data[..i], data[i]);
  }

  /** Tagging a kept data line extends the filtered lines, the output lines and the issued ids by one each. */
  lemma KeepLine(data: seq<string>, i: nat, kept: seq<string>, ids: seq<int>, id: int, issued: seq<int>)
    requires i < |data| && kept == NonBlank(data[..i]) && |kept| == |ids|
    requires !IsBlank(data[i])
    ensures NonBlank(data[..i + 1]) == kept + [data[i]]
    ensures Tagged(kept + [data[i]], ids + [id]) == Tagged(kept, ids) + [LongToString(id) + "," + data[i]]
    ensures (issued + ids) + [id] == issued + (ids + [id])
  {
    PrefixExtend(data, i);
    NonBlankSnoc(data[..i], data[i]);
    TaggedSnoc(kept, ids, data[i], id);
  }

  lemma PrefixExtend<T>(s: seq<T>, n: nat)
    requires n < |s|
    ensures s[..n + 1] == s[..n] + [s[n]]
  {
  }

  /** A non-blank line still ahead means the filtered prefix is shorter than the whole. */
  lemma NonBlankPrefixShorter(lines: seq<string>, n: nat)
    requires n < |lines| && !IsBlank(lines[n])
    ensures |NonBlank(lines[..n])| < |NonBlank(lines)|
  {
    assert lines == lines[..n] + [lines[n]] + lines[n + 1..];
    NonBlankAppend(lines[..n] + [lines[n]], lines[n + 1..]);
    NonBlankAppend(lines[..n], [lines[n]]);
  }

  /** The ids a transform of `input` draws: one per non-blank data line. */
  function IdsNeeded(input: seq<string>): nat {
    if input == [] then 0 else |NonBlank(input[1..])|
  }

  /**
   * The output of the transform: `id,<header>`, then `<id>,<line>` for every data line that is
   * not blank; with no header line at all, just `id`.
   */
  function InjectedLines(input: seq<string>, ids: seq<int>): seq<string>
    requires |ids| == IdsNeeded(input)
  {
    if input == [] then ["id"]
    else ["id," + input[0]] + Tagged(NonBlank(input[1..]), ids)
  }

  /** A tagged line splits at its first comma into the id's decimal form and the original line. */
  lemma TaggedLineSplits(id: int, row: string)
    ensures var s := LongToString(id); var line := s + "," + row;
      && ',' !in s && ParseLong(s) == Some(id)
      && line[..|s|] == s && line[|s|] == ',' && line[|s| + 1..] == row
  {
    LongToStringRoundTrip(id);
    var s := LongToString(id);
    assert (s + "," + row)[..|s|] == s;
    assert (s + "," + row)[|s| + 1..] == row;
  }

  /**
   * The shape of the output: one header line, then one line per non-blank data line, in input
   * order, each the k-th id, a comma and the original untrimmed line.
   */
  lemma InjectedLinesShape(input: seq<string>, ids: seq<int>)
    requires |ids| == IdsNeeded(input)
    ensures var out := InjectedLines(input, ids);
      && |out| == 1 + |ids|
      && (input == [] ==> out == ["id"] && ids == [])
      && (input != [] ==> out[0] == "id," + input[0])
      && forall k :: 0 <= k < |ids| ==> out[k + 1] == LongToString(ids[k]) + "," + NonBlank(input[1..])[k]
  {
    if input != [] {
      var rows := NonBlank(input[1..]);
      var out := ["id," + input[0]] + Tagged(rows, ids);
      forall k | 0 <= k < |ids|
        ensures out[k + 1] == LongToString(ids[k]) + "," + rows[k]
      {
        assert out[k + 1] == Tagged(rows, ids)[k];
        TaggedAt(rows, ids, k);
      }
    }
  }


  /**
   * The body of `main` between reading and writing: the header line gets `id,` and the data
   * lines are tagged; with no header line the output is just `id` and no id is drawn. It fails
   * only after a reading behind the generator's last timestamp, so never over readings that are
   * ordered and start at or after it.
   */
  method InjectIds(input: seq<string>, generator: SnowflakeIdGenerator, clock: Clock)
    returns (r: Result<seq<string>, GenerateError>, ids: seq<int>, processedDataRows: nat)
    requires generator.Valid() && clock.Valid()
    modifies generator, clock
    ensures generator.Valid()
    ensures generator.issued == old(generator.issued) + ids
    ensures |ids| == processedDataRows
    ensures r.Success? ==> |ids| == IdsNeeded(input) && r.value == InjectedLines(input, ids)
    ensures input == [] ==> r == Success(["id"]) && ids == []
    ensures r.Failure? ==> r.error == ClockMovedBackwards && |ids| < IdsNeeded(input)
    ensures r.Failure? ==> clock.ticks > old(clock.ticks) && clock.reading(clock.ticks - 1) < generator.lastTimestamp
    ensures Ordered(clock.reading, old(clock.ticks), clock.ticks) && old(generator.lastTimestamp) <= clock.reading(old(clock.ticks)) ==>
      r.Success?
  {
    if input == [] {
      return Success(["id"]), [], 0;
    }
    var headerLine := input[0];
    var outputLines := ["id," + headerLine];
    var rows;
    rows, ids, processedDataRows := TagDataLines(input[1..], generator, clock);
    if rows.Failure? {
      return Failure(rows.error), ids, processedDataRows;
    }
    return Success(outputLines + rows.value), ids, processedDataRows;
  }

  /**
   * The `readLine` loop of `main`: each data line that is not blank after `trim()` gets a fresh
   * id from `generator` and becomes `<id>,<line>`; blank ones are dropped. A failing
   * `generateId` ends the loop with its error, as the exception does in `main`; over readings
   * that are ordered and start at or after the last timestamp, none fails.
   */
  method TagDataLines(data: seq<string>, generator: SnowflakeIdGenerator, clock: Clock)
    returns (r: Result<seq<string>, GenerateError>, ids: seq<int>, processedDataRows: nat)
    requires generator.Valid() && clock.Valid()
    modifies generator, clock
    ensures generator.Valid()
    ensures generator.issued == old(generator.issued) + ids
    ensures |ids| == processedDataRows
    ensures r.Success? ==> |ids| == |NonBlank(data)| && r.value == Tagged(NonBlank(data), ids)
    ensures r.Failure? ==> r.error == ClockMovedBackwards && |ids| < |NonBlank(data)|
    ensures r.Failure? ==> clock.ticks > old(clock.ticks) && clock.reading(clock.ticks - 1) < generator.lastTimestamp
    ensures Ordered(clock.reading, old(clock.ticks), clock.ticks) && old(generator.lastTimestamp) <= clock.reading(old(clock.ticks)) ==>
      r.Success?
  {
    var outputLines := [];
    ids := [];
    processedDataRows := 0;
    ghost var from, last0, issued0 := clock.ticks, generator.lastTimestamp, generator.issued;
    var i := 0;
    while i < |data|
      invariant Progress(data, i, outputLines, ids, processedDataRows)
      invariant Drawing(generator, clock, from, last0, issued0, ids)
    {
      var next;
      next, ids, processedDataRows := TagNextLine(data, i, outputLines, ids, processedDataRows, generator, clock, from, last0, issued0);
      if next.Failure? {
        return Failure(next.error), ids, processedDataRows;
      }
      outputLines := next.value;
      i := i + 1;
    }
    assert data[..i] == data;
    return Success(outputLines), ids, processedDataRows;
  }

  /** After the first `i` data lines: one id per surviving line, each tagged in order. */
  ghost predicate Progress(data: seq<string>, i: nat, outputLines: seq<string>, ids: seq<int>, processedDataRows: nat) {
    && i <= |data|
    && |ids| == processedDataRows == |NonBlank(data[..i])|
    && outputLines == Tagged(NonBlank(data[..i]), ids)
  }

  /** The generator has issued `ids` since it last stood at `last0` with the clock at tick `from`. */
  ghost predicate Drawing(generator: SnowflakeIdGenerator, clock: Clock, from: nat, last0: int, issued0: seq<int>, ids: seq<int>)
    reads generator, clock
  {
    && generator.Valid() && clock.Valid()
    && Since(generator, clock, from, last0)
    && generator.issued == issued0 + ids
  }

  /** One pass of the `readLine` loop over `data[i]`: a blank line is skipped, any other is tagged. */
  method TagNextLine(data: seq<string>, i: nat, outputLines: seq<string>, ids: seq<int>, processedDataRows: nat,
                     generator: SnowflakeIdGenerator, clock: Clock, ghost from: nat, ghost last0: int, ghost issued0: seq<int>)
    returns (r: Result<seq<string>, GenerateError>, ids': seq<int>, processedDataRows': nat)
    requires i < |data| && Progress(data, i, outputLines, ids, processedDataRows)
    requires Drawing(generator, clock, from, last0, issued0, ids)
    modifies generator, clock
    ensures r.Success? ==> Drawing(generator, clock, from, last0, issued0, ids')
    ensures r.Success? ==> Progress(data, i + 1, r.value, ids', processedDataRows')
    ensures r.Success? && IsBlank(data[i]) ==>
      ids' == ids && r.value == outputLines && processedDataRows' == processedDataRows
    ensures r.Success? && !IsBlank(data[i]) ==>
      && |ids'| == |ids| + 1 && ids'[..|ids|] == ids && processedDataRows' == processedDataRows + 1
      && r.value == outputLines + [LongToString(ids'[|ids|]) + "," + data[i]]
    ensures r.Failure? ==>
      && r.error == ClockMovedBackwards && ids' == ids && processedDataRows' == processedDataRows
      && |ids| < |NonBlank(data)|
      && generator.Valid() && generator.issued == issued0 + ids
      && clock.ticks > from && clock.reading(clock.ticks - 1) < generator.lastTimestamp
      && !(Ordered(clock.reading, from, clock.ticks) && last0 <= clock.reading(from))
  {
    var dataLine := data[i];
    if Trim(dataLine) == [] {
      SkipBlankLine(data, i);
      return Success(outputLines), ids, processedDataRows;
    }
    var tagged, id := TagLine(dataLine, generator, clock, from, last0);
    if tagged.Failure? {
      NonBlankPrefixShorter(data, i);
      return Failure(tagged.error), ids, processedDataRows;
    }
    KeepLine(data, i, NonBlank(data[..i]), ids, id, issued0);
    return Success(outputLines + [tagged.value]), ids + [id], processedDataRows + 1;
  }

  /**
   * The generator's last timestamp as seen from tick `from`, when it was `last0`: still `last0`
   * while no reading has been taken, afterwards the latest reading.
   */
  ghost predicate Since(generator: SnowflakeIdGenerator, clock: Clock, from: nat, last0: int)
    reads generator, clock
  {
    && clock.ticks >= from
    && (clock.ticks == from ==> generator.lastTimestamp == last0)
    && (clock.ticks > from ==> generator.lastTimestamp == clock.reading(clock.ticks - 1))
  }

  /**
   * One kept data line: a fresh id from `generator`, written in decimal before a comma and the
   * line. It fails exactly when `generateId` throws, and then nothing changes but the clock.
   */
  method TagLine(dataLine: string, generator: SnowflakeIdGenerator, clock: Clock, ghost from: nat, ghost last0: int)
    returns (r: Result<string, GenerateError>, id: int)
    requires generator.Valid() && clock.Valid()
    requires Since(generator, clock, from, last0)
    ensures r.Success? ==> Since(generator, clock, from, last0)
    ensures r.Failure? ==> clock.ticks > from && clock.reading(clock.ticks - 1) < generator.lastTimestamp
    ensures r.Failure? ==> !(Ordered(clock.reading, from, clock.ticks) && last0 <= clock.reading(from))
    modifies generator, clock
    ensures generator.Valid()
    ensures clock.ticks > old(clock.ticks)
    ensures r.Failure? <==> clock.reading(old(clock.ticks)) < old(generator.lastTimestamp)
    ensures r.Success? ==>
      && generator.issued == old(generator.issued) + [id] && r.value == LongToString(id) + "," + dataLine
      && generator.lastTimestamp == clock.reading(clock.ticks - 1)
      && generator.lastTimestamp >= EPOCH
      && id == PackId(generator.lastTimestamp - EPOCH, generator.datacenterId, generator.machineId, generator.sequence)
    ensures r.Failure? ==>
      && r.error == ClockMovedBackwards && clock.ticks == old(clock.ticks) + 1
      && generator.lastTimestamp == old(generator.lastTimestamp) && generator.sequence == old(generator.sequence)
      && generator.issued == old(generator.issued)
  {
    ghost var start, last := clock.ticks, generator.lastTimestamp;
    var g := generator.GenerateId(clock);
    if g.Failure? {
      BackwardsNotOrdered(clock.reading, from, last0, start, last);
      return Failure(g.error), 0;
    }
    id := g.value;
    r := Success(LongToString(id) + "," + dataLine);
  }
}
