/** The last lines of an append-only log, read backwards in chunks. */
module JsonlTail {
  import opened Bytes
  import opened Sequences
  import opened Wrappers

  // ---------------------------------------------------------------- the forward form

  /** Split at every newline, the way a text is cut into lines from front to back. */
  function Lines(bytes: seq<byte>): seq<seq<byte>>
    decreases |bytes|
  {
    var i := IndexOf(bytes, LF);
    if i == |bytes| then [bytes] else [bytes[..i]] + Lines(bytes[i + 1..])
  }

  predicate Kept(line: seq<byte>, maxLineBytes: nat) {
    0 < |line| <= maxLineBytes
  }

  function KeptLines(lines: seq<seq<byte>>, maxLineBytes: nat): seq<seq<byte>> {
    if lines == [] then []
    else (if Kept(lines[0], maxLineBytes) then [lines[0]] else []) + KeptLines(lines[1..], maxLineBytes)
  }

  /** Split the file into lines, drop empty and over-long ones, take the last `limit`. */
  function Tail(bytes: seq<byte>, limit: nat, maxLineBytes: nat): seq<seq<byte>> {
    Last(KeptLines(Lines(bytes), maxLineBytes), limit)
  }

  // ---------------------------------------------------------------- splitting from the back

  lemma LinesAt(bytes: seq<byte>, i: nat)
    requires i < |bytes| && bytes[i] == LF && forall j :: 0 <= j < i ==> bytes[j] != LF
    ensures Lines(bytes) == [bytes[..i]] + Lines(bytes[i + 1..])
  {
    assert IndexOf(bytes, LF) == i;
  }

  lemma LinesNone(bytes: seq<byte>)
    requires IndexOf(bytes, LF) == |bytes|
    ensures Lines(bytes) == [bytes]
  {
  }

  lemma {:induction false} LinesJoin(a: seq<byte>, b: seq<byte>)
    ensures Lines(a + [LF] + b) == Lines(a) + Lines(b)
    decreases |a|
  {
    hide Lines;
    var all := a + [LF] + b;
    var i := IndexOf(a, LF);
    forall j | 0 <= j < i ensures all[j] != LF {
      assert all[j] == a[j];
    }
    LinesAt(all, i);
    if i == |a| {
      LinesNone(a);
      assert all[..i] == a && all[i + 1..] == b;
    } else {
      LinesAt(a, i);
      LinesJoin(a[i + 1..], b);
      JoinSlices(a, b, i);
      assert [a[..i]] + (Lines(a[i + 1..]) + Lines(b)) == ([a[..i]] + Lines(a[i + 1..])) + Lines(b);
    }
  }

  lemma JoinSlices(a: seq<byte>, b: seq<byte>, i: nat)
    requires i < |a|
    ensures (a + [LF] + b)[..i] == a[..i]
    ensures (a + [LF] + b)[i + 1..] == a[i + 1..] + [LF] + b
  {
  }

  lemma KeptCons(line: seq<byte>, lines: seq<seq<byte>>, maxLineBytes: nat)
    ensures KeptLines([line] + lines, maxLineBytes)
         == (if Kept(line, maxLineBytes) then [line] else []) + KeptLines(lines, maxLineBytes)
  {
    assert ([line] + lines)[1..] == lines;
  }

  lemma NoneKept(maxLineBytes: nat)
    ensures KeptLines([], maxLineBytes) == []
  {
  }

  lemma {:induction false} KeptAppend(a: seq<seq<byte>>, b: seq<seq<byte>>, maxLineBytes: nat)
    ensures KeptLines(a + b, maxLineBytes) == KeptLines(a, maxLineBytes) + KeptLines(b, maxLineBytes)
  {
    hide KeptLines, Kept;
    if a == [] {
      assert a + b == b;
      NoneKept(maxLineBytes);
    } else {
      KeptCons(a[0], a[1..] + b, maxLineBytes);
      KeptCons(a[0], a[1..], maxLineBytes);
      KeptAppend(a[1..], b, maxLineBytes);
      assert a + b == [a[0]] + (a[1..] + b);
      assert a == [a[0]] + a[1..];
    }
  }

  /** The kept lines of a file whose last line is `line`. */
  lemma SplitLastLine(front: seq<byte>, line: seq<byte>, maxLineBytes: nat)
    requires LF !in line
    ensures KeptLines(Lines(line), maxLineBytes) == if Kept(line, maxLineBytes) then [line] else []
    ensures KeptLines(Lines(front + [LF] + line), maxLineBytes)
         == KeptLines(Lines(front), maxLineBytes) + if Kept(line, maxLineBytes) then [line] else []
  {
    LinesJoin(front, line);
    KeptAppend(Lines(front), Lines(line), maxLineBytes);
    assert Lines(line) == [line];
  }

  // ---------------------------------------------------------------- what is read of what was written

  lemma {:induction false} LinesShape(bytes: seq<byte>)
    ensures forall line :: line in Lines(bytes) ==> '\n' as int !in line
    decreases |bytes|
  {
    var i := IndexOf(bytes, LF);
    if i < |bytes| {
      LinesShape(bytes[i + 1..]);
    }
  }

  lemma {:induction false} KeptShape(lines: seq<seq<byte>>, maxLineBytes: nat)
    ensures forall line :: line in KeptLines(lines, maxLineBytes) ==> line in lines && 0 < |line| <= maxLineBytes
  {
    if lines != [] {
      KeptShape(lines[1..], maxLineBytes);
    }
  }

  lemma TailShape(bytes: seq<byte>, limit: nat, maxLineBytes: nat)
    ensures
      var lines := Tail(bytes, limit, maxLineBytes);
      && |lines| <= limit
      && forall i :: 0 <= i < |lines| ==> 0 < |lines[i]| <= maxLineBytes && '\n' as int !in lines[i]
  {
    LinesShape(bytes);
    KeptShape(Lines(bytes), maxLineBytes);
    var kept := KeptLines(Lines(bytes), maxLineBytes);
    assert forall i :: 0 <= i < |Last(kept, limit)| ==> Last(kept, limit)[i] in kept;
  }

  /** A log: every row and its newline. */
  function Log(rows: seq<seq<byte>>): seq<byte> {
    if rows == [] then [] else Log(rows[..|rows| - 1]) + rows[|rows| - 1] + ['\n' as int]
  }

  lemma {:induction false} LogLines(rows: seq<seq<byte>>)
    requires forall i :: 0 <= i < |rows| ==> '\n' as int !in rows[i]
    ensures Lines(Log(rows)) == rows + [[]]
  {
    if rows != [] {
      var front, row := rows[..|rows| - 1], rows[|rows| - 1];
      LogLines(front);
      assert rows == front + [row];
      assert Log(rows) == (Log(front) + row) + [LF] + [];
      LinesJoin(Log(front) + row, []);
      LastRow(front, row);
    }
  }

  lemma LastRow(rows: seq<seq<byte>>, row: seq<byte>)
    requires '\n' as int !in row && Lines(Log(rows)) == rows + [[]]
    ensures Lines(Log(rows) + row) == rows + [row]
  {
    hide Lines;
    assert Lines(row) == [row] by {
      LinesNone(row);
    }
    if rows == [] {
      assert Log(rows) + row == row;
    } else {
      var text := Log(rows[..|rows| - 1]) + rows[|rows| - 1];
      assert Log(rows) + row == text + [LF] + row;
      assert Log(rows) == text + [LF] + [];
      LinesJoin(text, row);
      LinesJoin(text, []);
      LinesNone([]);
      assert Lines(text) == (Lines(text) + [[]])[..|rows|] == rows;
    }
  }

  lemma {:induction false} AllKept(rows: seq<seq<byte>>, maxLineBytes: nat)
    requires forall i :: 0 <= i < |rows| ==> 0 < |rows[i]| <= maxLineBytes
    ensures KeptLines(rows, maxLineBytes) == rows
  {
    if rows != [] {
      AllKept(rows[1..], maxLineBytes);
    }
  }

  lemma KeptOfLog(rows: seq<seq<byte>>, torn: seq<byte>, maxLineBytes: nat)
    requires forall i :: 0 <= i < |rows| ==> '\n' as int !in rows[i]
    requires '\n' as int !in torn && |torn| <= maxLineBytes
    ensures KeptLines(Lines(Log(rows) + torn), maxLineBytes)
         == KeptLines(rows, maxLineBytes) + if torn == [] then [] else [torn]
  {
    LogLines(rows);
    LastRow(rows, torn);
    hide Lines, Log;
    KeptAppend(rows, [torn], maxLineBytes);
    KeptCons(torn, [], maxLineBytes);
    NoneKept(maxLineBytes);
    hide KeptLines;
    assert [torn] + [] == [torn];
  }

  /** Of a log whose rows all fit, and whatever was written of the next row, reading gives
      the last rows that were written. */
  lemma WrittenThenRead(rows: seq<seq<byte>>, torn: seq<byte>, limit: nat, maxLineBytes: nat)
    requires forall i :: 0 <= i < |rows| ==> 0 < |rows[i]| <= maxLineBytes && '\n' as int !in rows[i]
    requires '\n' as int !in torn && |torn| <= maxLineBytes
    ensures
      var all := if torn == [] then rows else rows + [torn];
      Tail(Log(rows) + torn, limit, maxLineBytes) == all[if |all| <= limit then 0 else |all| - limit..]
  {
    KeptOfLog(rows, torn, maxLineBytes);
    AllKept(rows, maxLineBytes);
    hide Lines, Log, KeptLines;
    assert rows + [] == rows;
  }

  lemma SkippedWithin(front: seq<seq<byte>>, row: seq<byte>, back: seq<seq<byte>>, maxLineBytes: nat)
    requires |row| > maxLineBytes
    ensures KeptLines(front + [row] + back, maxLineBytes) == KeptLines(front + back, maxLineBytes)
  {
    KeptCons(row, [], maxLineBytes);
    NoneKept(maxLineBytes);
    assert [row] + [] == [row];
    hide KeptLines;
    KeptAppend(front + [row], back, maxLineBytes);
    KeptAppend(front, [row], maxLineBytes);
    KeptAppend(front, back, maxLineBytes);
    assert KeptLines(front, maxLineBytes) + [] == KeptLines(front, maxLineBytes);
  }

  /** A row that is too long is passed over, and those around it are read all the same. */
  lemma LongRowSkipped(front: seq<seq<byte>>, row: seq<byte>, back: seq<seq<byte>>, limit: nat, maxLineBytes: nat)
    requires forall i :: 0 <= i < |front| ==> '\n' as int !in front[i]
    requires forall i :: 0 <= i < |back| ==> '\n' as int !in back[i]
    requires '\n' as int !in row && |row| > maxLineBytes
    ensures Tail(Log(front + [row] + back), limit, maxLineBytes) == Tail(Log(front + back), limit, maxLineBytes)
  {
    hide Lines, Log, KeptLines;
    KeptOfLog(front + [row] + back, [], maxLineBytes);
    KeptOfLog(front + back, [], maxLineBytes);
    SkippedWithin(front, row, back, maxLineBytes);
    assert Log(front + [row] + back) + [] == Log(front + [row] + back);
    assert Log(front + back) + [] == Log(front + back);
  }

  // ---------------------------------------------------------------- the backward scan

  /** What the scan has established when the bytes from `pos` on have been examined. */
  ghost predicate Scanned(
    bytes: seq<byte>, pos: nat, current: seq<byte>, collected: seq<seq<byte>>, limit: nat, maxLineBytes: nat)
  {
    && pos <= |bytes|
    && |collected| <= limit
    && LF !in Reversed(current)
    && KeptLines(Lines(bytes), maxLineBytes)
       == KeptLines(Lines(bytes[..pos] + Reversed(current)), maxLineBytes) + Reversed(collected)
  }

  /** The scan has come down to `pos`, or has stopped before with all the lines it needs. */
  ghost predicate ScannedDownTo(
    bytes: seq<byte>, pos: nat, current: seq<byte>, collected: seq<seq<byte>>, limit: nat, maxLineBytes: nat)
  {
    exists end: nat ::
      pos <= end && Scanned(bytes, end, current, collected, limit, maxLineBytes) && (|collected| == limit || end == pos)
  }

  lemma ScanByte(
    bytes: seq<byte>, pos: nat, current: seq<byte>, collected: seq<seq<byte>>, limit: nat, maxLineBytes: nat)
    requires Scanned(bytes, pos, current, collected, limit, maxLineBytes) && 0 < pos && bytes[pos - 1] != LF
    ensures Scanned(bytes, pos - 1, current + [bytes[pos - 1]], collected, limit, maxLineBytes)
  {
    var more := current + [bytes[pos - 1]];
    assert Reversed(more) == [bytes[pos - 1]] + Reversed(current);
    assert bytes[..pos - 1] + Reversed(more) == bytes[..pos] + Reversed(current);
  }

  lemma Prepended<T>(collected: seq<T>, kept: seq<T>)
    requires |kept| <= 1
    ensures Reversed(if kept == [] then collected else collected + [kept[0]]) == kept + Reversed(collected)
  {
  }

  lemma ScanNewline(
    bytes: seq<byte>, pos: nat, current: seq<byte>, collected: seq<seq<byte>>, limit: nat, maxLineBytes: nat)
    requires Scanned(bytes, pos, current, collected, limit, maxLineBytes) && 0 < pos && bytes[pos - 1] == LF
    requires |collected| < limit
    ensures
      var line := Reversed(current);
      var lines := if Kept(line, maxLineBytes) then collected + [line] else collected;
      Scanned(bytes, pos - 1, [], lines, limit, maxLineBytes)
  {
    hide KeptLines, Lines, Kept, Reversed;
    var line := Reversed(current);
    var kept := if Kept(line, maxLineBytes) then [line] else [];
    var front := bytes[..pos - 1];
    SplitLast(bytes, pos);
    SplitLastLine(front, line, maxLineBytes);
    NothingReversed(front);
    Prepended(collected, kept);
    Regroup(KeptLines(Lines(front), maxLineBytes), kept, Reversed(collected));
  }

  lemma NothingReversed(front: seq<byte>)
    ensures Reversed<byte>([]) == [] && front + Reversed<byte>([]) == front
  {
  }

  lemma Regroup<T>(a: seq<T>, b: seq<T>, c: seq<T>)
    ensures (a + b) + c == a + (b + c)
  {
  }

  lemma ScanDone(
    bytes: seq<byte>, pos: nat, current: seq<byte>, collected: seq<seq<byte>>, limit: nat, maxLineBytes: nat)
    requires Scanned(bytes, pos, current, collected, limit, maxLineBytes)
    ensures |collected| <= limit
    ensures |collected| == limit ==> Reversed(collected) == Tail(bytes, limit, maxLineBytes)
    ensures pos == 0 && |collected| < limit ==>
      Reversed(collected + if Kept(Reversed(current), maxLineBytes) then [Reversed(current)] else [])
      == Tail(bytes, limit, maxLineBytes)
  {
    hide KeptLines, Lines;
    var line := Reversed(current);
    if pos == 0 && |collected| < limit {
      assert bytes[..0] + line == line;
      SplitLastLine([], line, maxLineBytes);
      assert Reversed(collected + [line]) == [line] + Reversed(collected);
      assert collected + [] == collected;
    }
  }

  lemma ScannedAll(bytes: seq<byte>, current: seq<byte>, collected: seq<seq<byte>>, limit: nat, maxLineBytes: nat)
    ensures forall pos: nat ::
      ScannedDownTo(bytes, pos, current, collected, limit, maxLineBytes) && (pos == 0 || |collected| == limit) ==>
        var line := Reversed(current);
        Reversed(collected + if |collected| < limit && Kept(line, maxLineBytes) then [line] else [])
        == Tail(bytes, limit, maxLineBytes)
  {
    hide Scanned, Kept, Tail;
    forall end: nat | Scanned(bytes, end, current, collected, limit, maxLineBytes)
      ensures |collected| <= limit
      ensures |collected| == limit ==> Reversed(collected + []) == Tail(bytes, limit, maxLineBytes)
      ensures end == 0 && |collected| < limit ==>
        Reversed(collected + if Kept(Reversed(current), maxLineBytes) then [Reversed(current)] else [])
        == Tail(bytes, limit, maxLineBytes)
    {
      ScanDone(bytes, end, current, collected, limit, maxLineBytes);
      assert collected + [] == collected;
    }
  }

  method ReadExact(file: seq<byte>, pos: nat, chunk: array<byte>, size: nat)
    requires size <= chunk.Length && pos + size <= |file|
    modifies chunk
    ensures chunk[..size] == file[pos..pos + size]
  {
    for i := 0 to size
      invariant chunk[..i] == file[pos..pos + i]
    {
      chunk[i] := file[pos + i];
    }
  }

  /** Scan the chunk's first `size` bytes from its end, stopping once `limit` lines are in. */
  method ScanChunk(chunk: array<byte>, size: nat, current: seq<byte>, collected: seq<seq<byte>>,
                   limit: nat, maxLineBytes: nat, ghost file: seq<byte>, ghost pos: nat)
    returns (line: seq<byte>, lines: seq<seq<byte>>)
    requires size <= chunk.Length && pos + size <= |file| && chunk[..size] == file[pos..pos + size]
    requires Scanned(file, pos + size, current, collected, limit, maxLineBytes) && |collected| < limit
    ensures ScannedDownTo(file, pos, line, lines, limit, maxLineBytes)
  {
    hide Scanned;
    line, lines := current, collected;
    ghost var end := pos + size;
    var i := size;
    while i > 0
      invariant i <= size && pos <= end == pos + i
      invariant Scanned(file, end, line, lines, limit, maxLineBytes) && |lines| < limit
    {
      i := i - 1;
      var b := chunk[i];
      assert b == chunk[..size][i] == file[end - 1];
      if b == LF {
        ScanNewline(file, end, line, lines, limit, maxLineBytes);
        end := end - 1;
        if line != [] {
          var forward := Reversed(line);
          if |forward| <= maxLineBytes {
            lines := lines + [forward];
          }
          line := [];
          if |lines| >= limit {
            break;
          }
        }
      } else {
        ScanByte(file, end, line, lines, limit, maxLineBytes);
        line := line + [b];
        end := end - 1;
      }
    }
  }

  method TailLines(file: Option<seq<byte>>, limit: nat, maxLineBytes: nat, chunkBytes: nat)
    returns (lines: seq<seq<byte>>)
    requires chunkBytes > 0
    ensures file.None? ==> lines == []
    ensures file.Some? ==> lines == Tail(file.value, limit, maxLineBytes)
    ensures |lines| <= limit
    ensures forall i :: 0 <= i < |lines| ==> 0 < |lines[i]| <= maxLineBytes && '\n' as int !in lines[i]
  {
    if limit == 0 || file.None? {
      return [];
    }
    TailShape(file.value, limit, maxLineBytes);
    var bytes := file.value;
    var pos := |bytes|;
    if pos == 0 {
      assert KeptLines(Lines(bytes), maxLineBytes) == [];
      return [];
    }
    var collected: seq<seq<byte>> := [];
    var current: seq<byte> := [];
    var chunk := new byte[chunkBytes](_ => 0);
    assert bytes[..|bytes|] + Reversed<byte>([]) == bytes;
    assert Scanned(bytes, pos, current, collected, limit, maxLineBytes);
    while pos > 0 && |collected| < limit
      invariant 0 <= pos <= |bytes| && |collected| <= limit
      invariant ScannedDownTo(bytes, pos, current, collected, limit, maxLineBytes)
      decreases pos
    {
      var size := if chunkBytes < pos then chunkBytes else pos;
      pos := pos - size;
      ReadExact(bytes, pos, chunk, size);
      current, collected := ScanChunk(chunk, size, current, collected, limit, maxLineBytes, bytes, pos);
    }
    ScannedAll(bytes, current, collected, limit, maxLineBytes);
    if |collected| < limit && current != [] {
      var forward := Reversed(current);
      if |forward| <= maxLineBytes {
        collected := collected + [forward];
      }
    }
    lines := Reversed(collected);
  }
}
