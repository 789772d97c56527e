/** Line framing of the Stratum byte stream: complete lines are cut at newlines, trimmed, and dropped when empty. */
module LineCodec {
  import opened SeqFacts

  const MAX_STRATUM_LINE_BYTES: nat := 64 * 1024

  /** Unicode white space. */
  predicate IsSpace(c: char) {
    || '\U{0009}' <= c <= '\U{000D}' || c == ' ' || c == '\U{0085}' || c == '\U{00A0}' || c == '\U{1680}'
    || '\U{2000}' <= c <= '\U{200A}' || c == '\U{2028}' || c == '\U{2029}' || c == '\U{202F}'
    || c == '\U{205F}' || c == '\U{3000}'
  }

  function TrimStart(s: string): string {
    if s != "" && IsSpace(s[0]) then TrimStart(s[1..]) else s
  }

  function TrimEnd(s: string): string {
    if s != "" && IsSpace(s[|s| - 1]) then TrimEnd(s[..|s| - 1]) else s
  }

  function Trim(s: string): string {
    TrimEnd(TrimStart(s))
  }

  ghost predicate Blank(s: string) {
    forall i :: 0 <= i < |s| ==> IsSpace(s[i])
  }

  /** `r` is `s` without the white space at its ends, and without anything else. */
  ghost predicate IsTrimOf(r: string, s: string) {
    exists front: string, back: string ::
      s == front + r + back && Blank(front) && Blank(back)
      && (r != "" ==> !IsSpace(r[0]) && !IsSpace(r[|r| - 1]))
  }

  lemma {:induction false} TrimStartCuts(s: string) returns (front: string)
    ensures s == front + TrimStart(s) && Blank(front)
    ensures TrimStart(s) != "" ==> !IsSpace(TrimStart(s)[0])
  {
    if s != "" && IsSpace(s[0]) {
      front := TrimStartCuts(s[1..]);
      front := [s[0]] + front;
    } else {
      front := "";
    }
  }

  lemma {:induction false} TrimEndCuts(s: string) returns (back: string)
    ensures s == TrimEnd(s) + back && Blank(back)
    ensures TrimEnd(s) != "" ==> !IsSpace(TrimEnd(s)[|TrimEnd(s)| - 1]) && TrimEnd(s)[0] == s[0]
  {
    if s != "" && IsSpace(s[|s| - 1]) {
      back := TrimEndCuts(s[..|s| - 1]);
      assert s == TrimEnd(s) + (back + [s[|s| - 1]]);
      back := back + [s[|s| - 1]];
    } else {
      back := "";
    }
  }

  /** Trimming cuts white space at both ends, all of it and nothing else; carriage returns are white space. */
  lemma TrimCutsWhiteSpace(s: string)
    ensures IsTrimOf(Trim(s), s) && (Trim(s) == "" <==> Blank(s))
    ensures forall c :: c < '\U{0080}' ==> (IsSpace(c) <==> c == ' ' || '\t' <= c <= '\r')
    ensures forall c :: c >= '\U{0080}'
              ==> (IsSpace(c) <==> || c as int in {0x85, 0xA0, 0x1680, 0x2028, 0x2029, 0x202F, 0x205F, 0x3000}
                                   || 0x2000 <= c as int <= 0x200A)
  {
    var front := TrimStartCuts(s);
    var back := TrimEndCuts(TrimStart(s));
    var r := Trim(s);
    assert s == front + r + back;
    if r == "" {
      assert back == "" && s == front;
    } else {
      assert s[|front|] == r[0];
    }
  }

  /** Length in UTF-8. */
  function Utf8Length(s: string): nat {
    if s == "" then 0
    else
      Utf8Length(s[..|s| - 1]) +
      var c := s[|s| - 1];
      if c < '\U{0080}' then 1 else if c < '\U{0800}' then 2 else if c < '\U{10000}' then 3 else 4
  }

  /** Lengths add up, and a character takes one to four bytes. */
  lemma {:induction false} Utf8Lengths(a: string, b: string, c: char)
    ensures Utf8Length(a + b) == Utf8Length(a) + Utf8Length(b)
    ensures Utf8Length([c]) == if c as int < 0x80 then 1 else if c as int < 0x800 then 2
                               else if c as int < 0x1_0000 then 3 else 4
  {
    assert [c][..0] == "";
    if b == "" {
      assert a + b == a;
    } else {
      Utf8Lengths(a, b[..|b| - 1], c);
      assert (a + b)[..|a + b| - 1] == a + b[..|b| - 1];
    }
  }

  // ---------------------------------------------------------------------------------------
  // The whole stream, split at once
  // ---------------------------------------------------------------------------------------

  /** A text cut at its newlines: the finished pieces and the unfinished one at the end. */
  datatype Framed = Framed(done: seq<string>, pending: string)

  ghost function Feed(f: Framed, c: char): Framed {
    if c == '\n' then Framed(f.done + [f.pending], "") else Framed(f.done, f.pending + [c])
  }

  ghost function Frame(s: string): Framed {
    if s == "" then Framed([], "") else Feed(Frame(s[..|s| - 1]), s[|s| - 1])
  }

  ghost function Unlines(pieces: seq<string>): string {
    if pieces == [] then "" else Unlines(pieces[..|pieces| - 1]) + pieces[|pieces| - 1] + "\n"
  }

  /** `f` is `s` cut at its newlines: putting the newlines back gives `s`, and no piece has one. */
  ghost predicate Splits(f: Framed, s: string) {
    && Unlines(f.done) + f.pending == s
    && '\n' !in f.pending
    && forall i :: 0 <= i < |f.done| ==> '\n' !in f.done[i]
  }

  lemma FeedSplits(f: Framed, s: string, c: char)
    requires Splits(f, s)
    ensures Splits(Feed(f, c), s + [c])
  {
  }

  lemma {:induction false} FrameSplitsAtNewlines(s: string)
    ensures Splits(Frame(s), s)
  {
    if s == "" {
    } else {
      FrameSplitsAtNewlines(s[..|s| - 1]);
      FeedSplits(Frame(s[..|s| - 1]), s[..|s| - 1], s[|s| - 1]);
    }
  }

  lemma {:induction false} NoNewlineIsPending(s: string)
    requires '\n' !in s
    ensures Frame(s) == Framed([], s)
  {
    if s != "" {
      var front, c := s[..|s| - 1], s[|s| - 1];
      assert s == front + [c] && c in s;
      NoNewlineIsPending(front);
    }
  }

  ghost function WithDone(done: seq<string>, f: Framed): Framed {
    Framed(done + f.done, f.pending)
  }

  lemma FeedWithDone(done: seq<string>, f: Framed, c: char)
    ensures Feed(WithDone(done, f), c) == WithDone(done, Feed(f, c))
  {
  }

  /** Appending text continues the unfinished piece. */
  lemma {:induction false} FrameOfConcat(a: string, b: string)
    ensures Frame(a + b) == WithDone(Frame(a).done, Frame(Frame(a).pending + b))
  {
    var p := Frame(a).pending;
    if b == "" {
      FrameSplitsAtNewlines(a);
      NoNewlineIsPending(p);
      assert a + b == a && p + b == p;
    } else {
      var front, c := b[..|b| - 1], b[|b| - 1];
      FrameOfConcat(a, front);
      FeedWithDone(Frame(a).done, Frame(p + front), c);
      assert (a + b)[..|a + b| - 1] == a + front && (a + b)[|a + b| - 1] == c;
      assert (p + b)[..|p + b| - 1] == p + front && (p + b)[|p + b| - 1] == c;
    }
  }

  ghost function Cleaned(pieces: seq<string>): seq<string> {
    if pieces == [] then []
    else Cleaned(pieces[..|pieces| - 1]) + CleanedLine(pieces[|pieces| - 1])
  }

  ghost function CleanedLine(piece: string): seq<string> {
    if Trim(piece) == "" then [] else [Trim(piece)]
  }

  /** The lines of a stream: every finished piece, trimmed, empty ones dropped. */
  ghost function Lines(s: string): seq<string> {
    Cleaned(Frame(s).done)
  }

  /** The unfinished line at the end of a stream. */
  ghost function Pending(s: string): string {
    Frame(s).pending
  }

  lemma {:induction false} CleanedConcat(ps: seq<string>, qs: seq<string>)
    ensures Cleaned(ps + qs) == Cleaned(ps) + Cleaned(qs)
  {
    hide CleanedLine;
    if qs == [] {
      assert ps + qs == ps;
    } else {
      CleanedConcat(ps, qs[..|qs| - 1]);
      assert (ps + qs)[..|ps + qs| - 1] == ps + qs[..|qs| - 1];
      assert (Cleaned(ps) + Cleaned(qs[..|qs| - 1])) + CleanedLine(qs[|qs| - 1])
          == Cleaned(ps) + (Cleaned(qs[..|qs| - 1]) + CleanedLine(qs[|qs| - 1]));
    }
  }

  ghost predicate Increasing(positions: seq<nat>) {
    forall i, j :: 0 <= i < j < |positions| ==> positions[i] < positions[j]
  }

  /** The lines are trimmed pieces, in order, and the pieces that are no line are blank. */
  ghost predicate TrimmedPieces(lines: seq<string>, pieces: seq<string>, positions: seq<nat>) {
    && |positions| == |lines| && Increasing(positions)
    && (forall i :: 0 <= i < |lines|
          ==> positions[i] < |pieces| && lines[i] != "" && IsTrimOf(lines[i], pieces[positions[i]]))
    && (forall p: nat :: p < |pieces| && p !in positions ==> Blank(pieces[p]))
  }

  lemma {:induction false} CleanedAreTrimmedPieces(pieces: seq<string>) returns (positions: seq<nat>)
    ensures TrimmedPieces(Cleaned(pieces), pieces, positions)
  {
    positions := [];
    if pieces != [] {
      var front, piece := pieces[..|pieces| - 1], pieces[|pieces| - 1];
      assert pieces == front + [piece];
      positions := CleanedAreTrimmedPieces(front);
      TrimCutsWhiteSpace(piece);
      if Trim(piece) == "" {
        AddBlank(Cleaned(front), front, piece, positions);
      } else {
        AddLine(Cleaned(front), front, Trim(piece), piece, positions);
        positions := positions + [|front|];
      }
    }
  }

  lemma AddBlank(lines: seq<string>, front: seq<string>, piece: string, positions: seq<nat>)
    requires TrimmedPieces(lines, front, positions) && Blank(piece)
    ensures TrimmedPieces(lines, front + [piece], positions)
  {
    hide IsTrimOf, Blank;
  }

  lemma AddLine(lines: seq<string>, front: seq<string>, line: string, piece: string, positions: seq<nat>)
    requires TrimmedPieces(lines, front, positions) && IsTrimOf(line, piece) && line != ""
    ensures TrimmedPieces(lines + [line], front + [piece], positions + [|front|])
  {
    hide IsTrimOf, Blank;
    var more := positions + [|front|];
    assert more[|positions|] == |front|;
    assert forall i :: 0 <= i < |positions| ==> more[i] == positions[i];
  }

  /**
   * The lines of a stream are its pieces between newlines, in order, each freed of the white space at its
   * ends and of nothing else, without the blank ones.
   */
  lemma LinesAreTheTrimmedPieces(s: string) returns (positions: seq<nat>)
    ensures TrimmedPieces(Lines(s), Frame(s).done, positions)
    ensures Splits(Frame(s), s) && Pending(s) == Frame(s).pending
  {
    positions := CleanedAreTrimmedPieces(Frame(s).done);
    FrameSplitsAtNewlines(s);
  }

  /** Splitting a stream in two does not change its lines or its unfinished end. */
  lemma LinesOfConcat(a: string, b: string)
    ensures Lines(a + b) == Lines(a) + Lines(Pending(a) + b)
    ensures Pending(a + b) == Pending(Pending(a) + b)
  {
    FrameOfConcat(a, b);
    CleanedConcat(Frame(a).done, Frame(Pending(a) + b).done);
  }

  /** A text without a newline is one unfinished line. */
  lemma NoLines(s: string)
    requires '\n' !in s
    ensures Lines(s) == [] && Pending(s) == s
  {
    NoNewlineIsPending(s);
  }

  /** The text up to the first newline is the first line. */
  lemma FirstLine(s: string, pos: nat)
    requires pos < |s| && s[pos] == '\n' && '\n' !in s[..pos]
    ensures Lines(s) == CleanedLine(s[..pos]) + Lines(s[pos + 1..])
    ensures Pending(s) == Pending(s[pos + 1..])
  {
    hide Lines, Pending, CleanedLine;
    var x, y := s[..pos], s[pos + 1..];
    OneLine(x);
    LinesOfConcat(x + "\n", y);
    assert s == (x + "\n") + y;
    assert "" + y == y;
  }

  lemma OneLine(x: string)
    requires '\n' !in x
    ensures Lines(x + "\n") == CleanedLine(x) && Pending(x + "\n") == ""
  {
    NoNewlineIsPending(x);
    assert [x][..0] == [] && Cleaned([]) == [];
  }

  // ---------------------------------------------------------------------------------------
  // The buffer
  // ---------------------------------------------------------------------------------------

  method Find(s: string, c: char) returns (pos: Option<nat>)
    ensures pos.None? ==> c !in s
    ensures pos.Some? ==> pos.value < |s| && s[pos.value] == c && c !in s[..pos.value]
  {
    for i := 0 to |s|
      invariant c !in s[..i]
    {
      if s[i] == c { return Some(i); }
    }
    return None;
  }

  class LineBuffer {
    var buffer: string

    constructor ()
      ensures buffer == ""
    {
      buffer := "";
    }

    /** `push_lossy_and_drain_lines` */
    method PushAndDrainLines(chunk: string) returns (out: seq<string>)
      modifies this
      ensures out == Lines(old(buffer) + chunk) && buffer == Pending(old(buffer) + chunk)
    {
      hide Lines, Pending;
      buffer := buffer + chunk;
      ghost var whole := buffer;
      out := [];
      while true
        invariant Lines(whole) == out + Lines(buffer) && Pending(whole) == Pending(buffer)
        decreases |buffer|
      {
        var pos := Find(buffer, '\n');
        if pos.None? {
          NoLines(buffer);
          break;
        }
        FirstLine(buffer, pos.value);
        var line := Trim(buffer[..pos.value]);
        buffer := buffer[pos.value + 1..];
        if line != "" {
          out := out + [line];
        }
      }
    }

    /** `append_line_data` */
    method AppendLineData(data: string) returns (ok: bool)
      modifies this
      ensures ok == (Utf8Length(old(buffer)) + Utf8Length(data) <= 65_536)
      ensures buffer == if ok then old(buffer) + data else old(buffer)
    {
      if Utf8Length(buffer) + Utf8Length(data) > MAX_STRATUM_LINE_BYTES {
        return false;
      }
      buffer := buffer + data;
      return true;
    }

    /** What the read loop does with one chunk: append within the limit, then drain; or give up. */
    method ReadChunk(chunk: string) returns (ok: bool, out: seq<string>)
      modifies this
      ensures ok <==> Utf8Length(old(buffer)) + Utf8Length(chunk) <= 65_536
      ensures ok ==> out == Lines(old(buffer) + chunk) && buffer == Pending(old(buffer) + chunk)
      ensures !ok ==> out == [] && buffer == old(buffer)
    {
      out := [];
      ok := AppendLineData(chunk);
      if ok {
        assert buffer + "" == buffer;
        out := PushAndDrainLines("");
      }
    }
  }

  // ---------------------------------------------------------------------------------------
  // Runs
  // ---------------------------------------------------------------------------------------

  ghost function Flat(chunks: seq<string>): string {
    if chunks == [] then "" else Flat(chunks[..|chunks| - 1]) + chunks[|chunks| - 1]
  }

  /** All lines drained from the chunks in turn, and the buffer after them. */
  ghost function DrainAll(chunks: seq<string>): (seq<string>, string) {
    if chunks == [] then ([], "")
    else
      var (lines, buffer) := DrainAll(chunks[..|chunks| - 1]);
      (lines + Lines(buffer + chunks[|chunks| - 1]), Pending(buffer + chunks[|chunks| - 1]))
  }

  /** Chunking does not matter: the drained lines and the final buffer are those of the whole stream. */
  lemma {:induction false} ChunkingDoesNotMatter(chunks: seq<string>)
    ensures DrainAll(chunks) == (Lines(Flat(chunks)), Pending(Flat(chunks)))
  {
    if chunks != [] {
      ChunkingDoesNotMatter(chunks[..|chunks| - 1]);
      LinesOfConcat(Flat(chunks[..|chunks| - 1]), chunks[|chunks| - 1]);
    }
  }

  ghost predicate Fits(buffer: string, chunk: string) {
    Utf8Length(buffer) + Utf8Length(chunk) <= 65_536
  }

  /** The connection accepts every chunk. */
  ghost predicate AcceptsAll(chunks: seq<string>) {
    chunks == [] ||
    (AcceptsAll(chunks[..|chunks| - 1])
     && Fits(DrainAll(chunks[..|chunks| - 1]).1, chunks[|chunks| - 1]))
  }

  /** The unfinished line of the stream before chunk `n` and the chunk fit the limit together. */
  ghost predicate PendingFits(chunks: seq<string>, n: nat)
    requires n < |chunks|
  {
    Fits(Pending(Flat(chunks[..n])), chunks[n])
  }

  /**
   * The size limit does see the chunking: a connection survives its chunks exactly when, at each of
   * them, the unfinished line of the stream so far and the chunk fit the limit together.
   */
  lemma {:induction false} SurvivesIffPendingFits(chunks: seq<string>)
    ensures AcceptsAll(chunks) <==> forall n: nat :: n < |chunks| ==> PendingFits(chunks, n)
  {
    if chunks != [] {
      var last := |chunks| - 1;
      SurvivesIffPendingFits(chunks[..last]);
      LastChunkFits(chunks);
      forall n: nat | n < last ensures PendingFits(chunks[..last], n) == PendingFits(chunks, n) {
        assert chunks[..last][..n] == chunks[..n];
      }
      hide PendingFits, Fits;
    }
  }

  lemma LastChunkFits(chunks: seq<string>)
    requires chunks != []
    ensures Fits(DrainAll(chunks[..|chunks| - 1]).1, chunks[|chunks| - 1])
            <==> PendingFits(chunks, |chunks| - 1)
  {
    ChunkingDoesNotMatter(chunks[..|chunks| - 1]);
  }

  /** `strip_nul_bytes`, which also works chunk by chunk. */
  function StripNul(bytes: seq<int>): seq<int> {
    if bytes == [] then []
    else StripNul(bytes[..|bytes| - 1]) + if bytes[|bytes| - 1] != 0 then [bytes[|bytes| - 1]] else []
  }

  lemma {:induction false} StripNulByChunks(a: seq<int>, b: seq<int>)
    ensures StripNul(a + b) == StripNul(a) + StripNul(b)
    ensures 0 !in StripNul(a)
  {
    if b == [] {
      assert a + b == a;
      if a != [] {
        StripNulByChunks(a[..|a| - 1], []);
      }
    } else {
      StripNulByChunks(a, b[..|b| - 1]);
      assert (a + b)[..|a + b| - 1] == a + b[..|b| - 1];
    }
  }

  /** `kept` has the bytes at `positions`, and the others are zero. */
  ghost predicate KeepsNonZero(kept: seq<int>, bytes: seq<int>, positions: seq<nat>) {
    && |positions| == |kept| && Increasing(positions)
    && (forall i :: 0 <= i < |kept| ==> positions[i] < |bytes| && kept[i] == bytes[positions[i]] && kept[i] != 0)
    && (forall p: nat :: p < |bytes| && p !in positions ==> bytes[p] == 0)
  }

  lemma KeepOneMore(kept: seq<int>, bytes: seq<int>, before: seq<nat>)
    requires bytes != [] && KeepsNonZero(kept, bytes[..|bytes| - 1], before)
    ensures var last := |bytes| - 1;
            if bytes[last] == 0 then KeepsNonZero(kept, bytes, before)
            else KeepsNonZero(kept + [bytes[last]], bytes, before + [last])
  {
    var last := |bytes| - 1;
    var positions := if bytes[last] == 0 then before else before + [last];
    assert bytes[last] != 0 ==> positions[|before|] == last;
    forall p: nat | p < |bytes| && p !in positions ensures bytes[p] == 0 {
      if p < last {
        assert p !in before;
        assert bytes[..last][p] == bytes[p];
      }
    }
  }

  /** What is left is every byte that is not zero, in the same order, and nothing else. */
  lemma {:induction false} StripNulKeepsTheRest(bytes: seq<int>) returns (positions: seq<nat>)
    ensures KeepsNonZero(StripNul(bytes), bytes, positions)
  {
    positions := [];
    if bytes != [] {
      var last := |bytes| - 1;
      var before := StripNulKeepsTheRest(bytes[..last]);
      KeepOneMore(StripNul(bytes[..last]), bytes, before);
      positions := if bytes[last] == 0 then before else before + [last];
    }
  }
}
