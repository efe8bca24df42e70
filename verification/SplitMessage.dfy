/** Splitting a reply into chunks that fit one Telegram message. */
module SplitMessage {

  const MAX_MESSAGE_CHARS: nat := 4096

  /** The Unicode `White_Space` property, which is what trimming removes. */
  predicate IsSpace(c: char) {
    var n := c as int;
    || 0x09 <= n <= 0x0D || n == 0x20 || n == 0x85 || n == 0xA0 || n == 0x1680
    || 0x2000 <= n <= 0x200A || n == 0x2028 || n == 0x2029 || n == 0x202F || n == 0x205F || n == 0x3000
  }

  ghost predicate AllSpace(s: string) {
    forall i :: 0 <= i < |s| ==> IsSpace(s[i])
  }

  /** How many white space characters a text starts with. */
  function LeadingSpace(s: string): (n: nat)
    ensures n <= |s|
    ensures forall i :: 0 <= i < n ==> IsSpace(s[i])
    ensures n < |s| ==> !IsSpace(s[n])
  {
    if s == [] || !IsSpace(s[0]) then 0 else 1 + LeadingSpace(s[1..])
  }

  function TrimStart(s: string): (t: string)
    ensures |t| <= |s| && t == s[|s| - |t|..] && AllSpace(s[..|s| - |t|])
    ensures t != [] ==> !IsSpace(t[0])
  {
    s[LeadingSpace(s)..]
  }

  function TrimEnd(s: string): (t: string)
    ensures |t| <= |s| && t == s[..|t|] && AllSpace(s[|t|..])
    ensures t != [] ==> !IsSpace(t[|t| - 1])
  {
    if s != [] && IsSpace(s[|s| - 1]) then
      var t := TrimEnd(s[..|s| - 1]);
      assert s[|t|..] == s[..|s| - 1][|t|..] + [s[|s| - 1]];
      t
    else s
  }

  function Trim(s: string): (t: string)
    ensures |t| <= |s|
    ensures s != [] && !IsSpace(s[0]) ==> t != []
  {
    TrimEnd(TrimStart(s))
  }

  /** The index of the last `c` in `s`, or -1. */
  function RFind(s: string, c: char): (i: int)
    ensures -1 <= i < |s|
    ensures i >= 0 ==> s[i] == c
    ensures forall j :: i < j < |s| ==> s[j] != c
  {
    if s == [] then -1
    else if s[|s| - 1] == c then |s| - 1
    else RFind(s[..|s| - 1], c)
  }

  ghost predicate LastAt(area: string, c: char, i: nat) {
    i < |area| && area[i] == c && forall j :: i < j < |area| ==> area[j] != c
  }

  /** Where a too-long text is cut: at the last newline of its first 4096 characters,
      else at their last space, else after all of them.  A cut at 0 would not advance,
      so it too becomes a cut after 4096. */
  ghost predicate IsCut(text: string, end: nat)
    requires |text| > MAX_MESSAGE_CHARS
  {
    var area := text[..MAX_MESSAGE_CHARS];
    if '\n' in area then CutAtLast(area, '\n', end)
    else if ' ' in area then CutAtLast(area, ' ', end)
    else end == MAX_MESSAGE_CHARS
  }

  ghost predicate CutAtLast(area: string, c: char, end: nat) {
    || (0 < end && LastAt(area, c, end))
    || (end == MAX_MESSAGE_CHARS && LastAt(area, c, 0))
  }

  function Cut(text: string): (end: nat)
    requires |text| > MAX_MESSAGE_CHARS
    ensures IsCut(text, end) && 0 < end <= MAX_MESSAGE_CHARS
  {
    var area := text[..MAX_MESSAGE_CHARS];
    var newline := RFind(area, '\n');
    var space := RFind(area, ' ');
    var chunkEnd := if newline >= 0 then newline else if space >= 0 then space else MAX_MESSAGE_CHARS;
    if chunkEnd == 0 then MAX_MESSAGE_CHARS else chunkEnd
  }

  function Chunks(text: string): seq<string>
    decreases |text|
  {
    if text == [] then []
    else if |text| <= MAX_MESSAGE_CHARS then [text]
    else [Trim(text[..Cut(text)])] + Chunks(TrimStart(text[Cut(text)..]))
  }

  /** `chunks` are consecutive pieces of `text` with nothing but white space between,
      before and after them. */
  ghost predicate Covers(text: string, chunks: seq<string>)
    decreases |chunks|
  {
    if chunks == [] then AllSpace(text)
    else exists lead: nat :: PieceAt(text, lead, chunks[0]) && Covers(text[lead + |chunks[0]|..], chunks[1..])
  }

  ghost predicate PieceAt(text: string, lead: nat, piece: string) {
    && lead + |piece| <= |text|
    && AllSpace(text[..lead])
    && text[lead..lead + |piece|] == piece
  }

  function Printable(s: string): string {
    if s == [] then [] else (if IsSpace(s[0]) then [] else [s[0]]) + Printable(s[1..])
  }

  function Concat(chunks: seq<string>): string {
    if chunks == [] then [] else chunks[0] + Concat(chunks[1..])
  }

  // ---------------------------------------------------------------- properties

  lemma CutUnique(text: string, a: nat, b: nat)
    requires |text| > MAX_MESSAGE_CHARS && IsCut(text, a) && IsCut(text, b)
    ensures a == b
  {
    var area := text[..MAX_MESSAGE_CHARS];
    assert |area| == MAX_MESSAGE_CHARS;
  }

  lemma {:induction false} ChunksFit(text: string)
    ensures forall i :: 0 <= i < |Chunks(text)| ==> |Chunks(text)[i]| <= MAX_MESSAGE_CHARS
    ensures text != [] && !IsSpace(text[0]) ==> Chunks(text) != [] && Chunks(text)[0] != []
    ensures forall i :: 0 < i < |Chunks(text)| ==> Chunks(text)[i] != []
    decreases |text|
  {
    hide IsSpace, Trim, TrimStart, TrimEnd, Cut, IsCut;
    if |text| > MAX_MESSAGE_CHARS {
      var rest := TrimStart(text[Cut(text)..]);
      ChunksFit(rest);
      assert forall i :: 0 < i < |Chunks(text)| ==> Chunks(text)[i] == Chunks(rest)[i - 1];
      if !IsSpace(text[0]) {
        assert text[..Cut(text)][0] == text[0];
      }
    }
  }

  lemma TrimEmptyIff(s: string)
    ensures Trim(s) == [] <==> AllSpace(s)
  {
    hide IsSpace;
    var t := TrimStart(s);
    if t != [] {
      assert t[0] == s[|s| - |t|];
    } else {
      assert s[..|s|] == s;
    }
  }

  /** The first chunk of a text that is cut is empty exactly when all before the cut is
      white space. */
  lemma FirstChunkEmptyIff(text: string)
    requires |text| > MAX_MESSAGE_CHARS
    ensures Chunks(text)[0] == [] <==> AllSpace(text[..Cut(text)])
  {
    TrimEmptyIff(text[..Cut(text)]);
  }

  /** White space, one code point after another. */
  lemma SpaceIff(c: char)
    ensures IsSpace(c) <==>
      || c in "\t\n\U{0B}\U{0C}\r \U{85}\U{A0}\U{1680}"
      || c in "\U{2000}\U{2001}\U{2002}\U{2003}\U{2004}\U{2005}\U{2006}\U{2007}\U{2008}\U{2009}\U{200A}"
      || c in "\U{2028}\U{2029}\U{202F}\U{205F}\U{3000}"
  {
  }

  /** No white space at either end. */
  predicate Tight(s: string) {
    s == [] || (!IsSpace(s[0]) && !IsSpace(s[|s| - 1]))
  }

  lemma TrimTight(s: string)
    ensures Tight(Trim(s))
  {
    hide IsSpace;
    var t := TrimStart(s);
    if Trim(s) != [] {
      assert Trim(s)[0] == t[0];
    }
  }

  /** Every chunk of a cut text is free of white space at both ends, but that the last may be
      what was left uncut: then it is the end of the text itself. */
  lemma {:induction false} ChunksTight(text: string)
    ensures forall i :: 0 <= i < |Chunks(text)| - 1 ==> Tight(Chunks(text)[i])
    ensures
      Chunks(text) != [] ==>
        var last := Chunks(text)[|Chunks(text)| - 1];
        Tight(last) || (|last| <= |text| && last == text[|text| - |last|..])
    decreases |text|
  {
    hide IsSpace, Trim, TrimStart, TrimEnd, Cut, IsCut, Tight;
    if |text| > MAX_MESSAGE_CHARS {
      var rest := TrimStart(text[Cut(text)..]);
      TrimTight(text[..Cut(text)]);
      ChunksTight(rest);
      assert forall i :: 0 < i < |Chunks(text)| ==> Chunks(text)[i] == Chunks(rest)[i - 1];
      if rest != [] {
        EndOfEnd(text, Cut(text), rest, Chunks(rest)[|Chunks(rest)| - 1]);
      }
    }
  }

  /** No chunk of a cut text starts with white space. */
  lemma {:induction false} ChunksStart(text: string)
    requires |text| > MAX_MESSAGE_CHARS || text == [] || !IsSpace(text[0])
    ensures forall i :: 0 <= i < |Chunks(text)| && Chunks(text)[i] != [] ==> !IsSpace(Chunks(text)[i][0])
    decreases |text|
  {
    hide IsSpace, Trim, TrimStart, TrimEnd, Cut, IsCut, Tight;
    if |text| > MAX_MESSAGE_CHARS {
      var rest := TrimStart(text[Cut(text)..]);
      TrimTight(text[..Cut(text)]);
      TightStart(Trim(text[..Cut(text)]));
      ChunksStart(rest);
      assert forall i :: 0 < i < |Chunks(text)| ==> Chunks(text)[i] == Chunks(rest)[i - 1];
    }
  }

  lemma TightStart(s: string)
    requires Tight(s)
    ensures s == [] || !IsSpace(s[0])
  {
  }

  lemma EndOfEnd(text: string, end: nat, rest: string, last: string)
    requires end <= |text| && rest == TrimStart(text[end..])
    ensures |last| <= |rest| && last == rest[|rest| - |last|..] ==> last == text[|text| - |last|..]
  {
  }

  lemma SpaceThen(text: string, gap: nat, lead: nat, piece: string)
    requires gap <= |text| && AllSpace(text[..gap]) && PieceAt(text[gap..], lead, piece)
    ensures PieceAt(text, gap + lead, piece)
    ensures text[gap + lead + |piece|..] == text[gap..][lead + |piece|..]
  {
    hide IsSpace;
    assert text[..gap + lead] == text[..gap] + text[gap..][..lead];
  }

  lemma {:induction false} CoversAfterSpace(text: string, gap: nat, chunks: seq<string>)
    requires gap <= |text| && AllSpace(text[..gap]) && Covers(text[gap..], chunks)
    ensures Covers(text, chunks)
  {
    hide IsSpace;
    if chunks == [] {
      assert text == text[..gap] + text[gap..];
    } else {
      var lead: nat :| PieceAt(text[gap..], lead, chunks[0]) && Covers(text[gap..][lead + |chunks[0]|..], chunks[1..]);
      SpaceThen(text, gap, lead, chunks[0]);
    }
  }

  lemma TrimParts(head: string) returns (before: string, after: string)
    ensures head == before + Trim(head) + after && AllSpace(before) && AllSpace(after)
  {
    hide IsSpace, TrimStart, TrimEnd;
    var front := TrimStart(head);
    before, after := head[..|head| - |front|], front[|Trim(head)|..];
  }

  /** The first chunk of a cut text is a piece of it, with only white space up to the
      point where the next chunk may begin. */
  lemma CutPiece(text: string, end: nat) returns (lead: nat, gap: nat)
    requires 0 < end <= |text|
    ensures PieceAt(text, lead, Trim(text[..end]))
    ensures
      var after := text[lead + |Trim(text[..end])|..];
      gap <= |after| && AllSpace(after[..gap]) && after[gap..] == TrimStart(text[end..])
  {
    hide IsSpace, Trim, TrimStart, TrimEnd;
    var head, tail := text[..end], text[end..];
    var x, y := TrimParts(head);
    var skipped := tail[..|tail| - |TrimStart(tail)|];
    lead, gap := |x|, |y| + |skipped|;
    assert text == head + tail && tail == skipped + TrimStart(tail);
    PieceIn(text, x, Trim(head), y + tail);
    assert y + tail == (y + skipped) + TrimStart(tail);
  }

  lemma PieceIn(text: string, x: string, piece: string, rest: string)
    requires text == x + piece + rest && AllSpace(x)
    ensures PieceAt(text, |x|, piece) && text[|x| + |piece|..] == rest
  {
    assert text[..|x|] == x;
  }

  lemma CoversStep(text: string, lead: nat, gap: nat, piece: string, more: seq<string>)
    requires PieceAt(text, lead, piece) && gap <= |text| - lead - |piece|
    requires AllSpace(text[lead + |piece|..][..gap]) && Covers(text[lead + |piece|..][gap..], more)
    ensures Covers(text, [piece] + more)
  {
    hide IsSpace, PieceAt;
    CoversAfterSpace(text[lead + |piece|..], gap, more);
    var chunks := [piece] + more;
    assert chunks[0] == piece && chunks[1..] == more;
    assert PieceAt(text, lead, chunks[0]) && Covers(text[lead + |chunks[0]|..], chunks[1..]);
  }

  lemma {:induction false} ChunksCover(text: string)
    ensures Covers(text, Chunks(text))
    decreases |text|
  {
    hide IsSpace, Trim, TrimStart, TrimEnd, Cut, IsCut;
    if text == [] {
    } else if |text| <= MAX_MESSAGE_CHARS {
      WholeCovers(text);
    } else {
      var end := Cut(text);
      var lead, gap := CutPiece(text, end);
      ChunksCover(TrimStart(text[end..]));
      CoversStep(text, lead, gap, Trim(text[..end]), Chunks(TrimStart(text[end..])));
    }
  }

  lemma WholeCovers(text: string)
    ensures Covers(text, [text])
  {
    var chunks := [text];
    assert PieceAt(text, 0, chunks[0]);
    assert Covers(text[0 + |chunks[0]|..], chunks[1..]);
  }

  lemma PrintableCons(c: char, s: string)
    ensures Printable([c] + s) == (if IsSpace(c) then [] else [c]) + Printable(s)
  {
    assert ([c] + s)[1..] == s;
  }

  lemma {:induction false} PrintableAppend(a: string, b: string)
    ensures Printable(a + b) == Printable(a) + Printable(b)
  {
    hide IsSpace, Printable;
    if a == [] {
      assert a + b == b;
      PrintableNothing(a);
    } else {
      PrintableCons(a[0], a[1..] + b);
      PrintableCons(a[0], a[1..]);
      PrintableAppend(a[1..], b);
      assert a + b == [a[0]] + (a[1..] + b);
      assert a == [a[0]] + a[1..];
    }
  }

  lemma {:induction false} PrintableNothing(s: string)
    requires AllSpace(s)
    ensures Printable(s) == []
  {
    hide IsSpace;
    if s != [] {
      PrintableNothing(s[1..]);
    }
  }

  /** Covering a text loses and reorders none of its printable characters. */
  lemma {:induction false} CoversPrintable(text: string, chunks: seq<string>)
    requires Covers(text, chunks)
    ensures Printable(Concat(chunks)) == Printable(text)
    decreases |chunks|
  {
    hide IsSpace, Printable, AllSpace;
    if chunks == [] {
      PrintableNothing(text);
      PrintableNone();
    } else {
      var lead: nat :| PieceAt(text, lead, chunks[0]) && Covers(text[lead + |chunks[0]|..], chunks[1..]);
      var rest := text[lead + |chunks[0]|..];
      CoversPrintable(rest, chunks[1..]);
      PieceSplits(text, lead, chunks[0]);
      PrintableNothing(text[..lead]);
      PrintableAppend(text[..lead], chunks[0] + rest);
      PrintableAppend(chunks[0], rest);
      PrintableAppend(chunks[0], Concat(chunks[1..]));
    }
  }

  lemma PrintableNone()
    ensures Printable([]) == []
  {
  }

  lemma PieceSplits(text: string, lead: nat, piece: string)
    requires PieceAt(text, lead, piece)
    ensures text == text[..lead] + (piece + text[lead + |piece|..])
  {
  }

  // ---------------------------------------------------------------- the loop

  method Split(message: string) returns (chunks: seq<string>)
    ensures chunks == if |message| <= 4096 then [message] else Chunks(message)
    ensures forall i :: 0 <= i < |chunks| ==> |chunks[i]| <= 4096
    ensures forall i :: 0 < i < |chunks| ==> chunks[i] != []
    ensures |message| > 4096 ==> forall i :: 0 <= i < |chunks| - 1 ==> Tight(chunks[i])
    ensures |message| > 4096 ==> forall i :: 0 <= i < |chunks| && chunks[i] != [] ==> !IsSpace(chunks[i][0])
    ensures Covers(message, chunks)
    ensures Printable(Concat(chunks)) == Printable(message)
  {
    if |message| <= MAX_MESSAGE_CHARS {
      WholeCovers(message);
      CoversPrintable(message, [message]);
      return [message];
    }
    chunks := SplitLong(message);
    ChunksFit(message);
    ChunksTight(message);
    ChunksStart(message);
    ChunksCover(message);
    CoversPrintable(message, chunks);
  }

  lemma NoChunks()
    ensures Chunks([]) == []
  {
  }

  lemma NextChunk(text: string)
    requires text != []
    ensures
      if |text| <= MAX_MESSAGE_CHARS then Chunks(text) == [text]
      else
        && 0 < Cut(text) <= |text|
        && |TrimStart(text[Cut(text)..])| < |text|
        && Chunks(text) == [Trim(text[..Cut(text)])] + Chunks(TrimStart(text[Cut(text)..]))
  {
  }

  method SplitLong(message: string) returns (chunks: seq<string>)
    ensures chunks == Chunks(message)
  {
    hide IsSpace, Trim, TrimStart, TrimEnd, Cut, IsCut, Chunks;
    chunks := [];
    NoChunks();
    var remaining := message;
    while remaining != []
      invariant Chunks(message) == chunks + Chunks(remaining)
      decreases |remaining|
    {
      NextChunk(remaining);
      if |remaining| <= MAX_MESSAGE_CHARS {
        chunks := chunks + [remaining];
        remaining := [];
        break;
      }
      var end := Cut(remaining);
      chunks := chunks + [Trim(remaining[..end])];
      remaining := TrimStart(remaining[end..]);
    }
  }
}
