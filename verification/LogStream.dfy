/** Unwrapping of the runtime's multiplexed log frames
    (internal/runtime/podman/podman.go, demuxLogStream). */
module LogStream {

  type Byte = x: int | 0 <= x < 256

  type Bytes = seq<Byte>

  const NEWLINE: Byte := 10

  function BigEndian(b: Bytes): (n: nat)
    requires |b| == 4
    ensures n < 0x1_0000_0000
  {
    (b[0] as int) * 0x100_0000 + (b[1] as int) * 0x1_0000 + (b[2] as int) * 0x100 + (b[3] as int)
  }

  /** strings.Split at every newline. */
  function Split(s: Bytes): (parts: seq<Bytes>)
    ensures |parts| >= 1
  {
    if s == [] then [[]]
    else
      var rest := Split(s[1..]);
      if s[0] == NEWLINE then [[]] + rest else [[s[0]] + rest[0]] + rest[1..]
  }

  /** strings.TrimRight of newlines. */
  function TrimNewlines(s: Bytes): Bytes {
    if s != [] && s[|s| - 1] == NEWLINE then TrimNewlines(s[..|s| - 1]) else s
  }

  function NonEmpty(parts: seq<Bytes>): seq<Bytes> {
    if parts == [] then []
    else (if parts[0] != [] then [parts[0]] else []) + NonEmpty(parts[1..])
  }

  /** The lines of one frame's payload. */
  function Lines(chunk: Bytes): seq<Bytes> {
    NonEmpty(Split(TrimNewlines(chunk)))
  }

  /** Payload length of the frame that `raw` begins with, cut to what is there. */
  function ChunkLength(raw: Bytes): (n: nat)
    requires |raw| >= 8
    ensures n <= |raw| - 8
  {
    var length := BigEndian(raw[4..8]);
    if length > |raw| - 8 then |raw| - 8 else length
  }

  function Demuxed(raw: Bytes): seq<Bytes> {
    if |raw| < 8 then []
    else
      var n := ChunkLength(raw);
      Lines(raw[8..8 + n]) + Demuxed(raw[8 + n..])
  }

  method AppendLines(before: seq<Bytes>, chunk: Bytes) returns (lines: seq<Bytes>)
    ensures lines == before + Lines(chunk)
  {
    lines := before;
    var parts := Split(TrimNewlines(chunk));
    var i := 0;
    while i < |parts|
      invariant i <= |parts| && before + NonEmpty(parts) == lines + NonEmpty(parts[i..])
    {
      assert parts[i..][1..] == parts[i + 1..];
      if parts[i] != [] {
        lines := lines + [parts[i]];
      }
      i := i + 1;
    }
  }

  lemma FrameAtFront(raw: Bytes)
    requires |raw| >= 8
    ensures var n := ChunkLength(raw); Demuxed(raw) == Lines(raw[8..][..n]) + Demuxed(raw[8..][n..])
  {
    var n := ChunkLength(raw);
    assert raw[8..][..n] == raw[8..8 + n] && raw[8..][n..] == raw[8 + n..];
  }

  lemma Associate(a: seq<Bytes>, b: seq<Bytes>, c: seq<Bytes>)
    ensures a + (b + c) == a + b + c
  {
  }

  method DemuxLogStream(raw: Bytes) returns (lines: seq<Bytes>)
    ensures lines == Demuxed(raw)
  {
    lines := [];
    var rest := raw;
    ghost var all := Demuxed(raw);
    while |rest| >= 8
      invariant all == lines + Demuxed(rest)
    {
      FrameAtFront(rest);
      ghost var n := ChunkLength(rest);
      Associate(lines, Lines(rest[8..][..n]), Demuxed(rest[8..][n..]));
      var length := BigEndian(rest[4..8]);
      rest := rest[8..];
      if length > |rest| {
        length := |rest|;
      }
      lines := AppendLines(lines, rest[..length]);
      rest := rest[length..];
    }
  }

  // ---------------------------------------------------------------------
  // Framing

  /** A frame: four bytes that name the stream, and the payload. */
  datatype Frame = Frame(stream: Bytes, payload: Bytes)

  ghost predicate ValidFrame(f: Frame) {
    |f.stream| == 4 && |f.payload| < 0x1_0000_0000
  }

  function Header(n: nat): (b: Bytes)
    requires n < 0x1_0000_0000
    ensures |b| == 4 && BigEndian(b) == n
  {
    var low := n % 0x100_0000;
    [n / 0x100_0000, low / 0x1_0000, low % 0x1_0000 / 0x100, low % 0x1_0000 % 0x100]
  }

  function FrameBytes(f: Frame): (b: Bytes)
    requires ValidFrame(f)
    ensures |b| == 8 + |f.payload|
  {
    f.stream + Header(|f.payload|) + f.payload
  }

  function Encode(frames: seq<Frame>): Bytes
    requires forall i :: 0 <= i < |frames| ==> ValidFrame(frames[i])
  {
    if frames == [] then [] else FrameBytes(frames[0]) + Encode(frames[1..])
  }

  function AllLines(frames: seq<Frame>): seq<Bytes> {
    if frames == [] then [] else Lines(frames[0].payload) + AllLines(frames[1..])
  }

  lemma FirstFrame(f: Frame, rest: Bytes)
    requires ValidFrame(f)
    ensures Demuxed(FrameBytes(f) + rest) == Lines(f.payload) + Demuxed(rest)
  {
  }

  /** Demultiplexing inverts framing: for every list of frames the result is the
      non-empty lines of their payloads, in order. */
  lemma {:induction false} DemuxInvertsFraming(frames: seq<Frame>)
    requires forall i :: 0 <= i < |frames| ==> ValidFrame(frames[i])
    ensures Demuxed(Encode(frames)) == AllLines(frames)
  {
    if frames != [] {
      DemuxInvertsFraming(frames[1..]);
      FirstFrame(frames[0], Encode(frames[1..]));
    }
  }

  // ---------------------------------------------------------------------
  // What the lines of a payload are

  lemma {:induction false} SplitLine(line: Bytes, rest: Bytes)
    requires NEWLINE !in line
    ensures Split(line + [NEWLINE] + rest) == [line] + Split(rest)
  {
    var s := line + [NEWLINE] + rest;
    if line == [] {
      assert s[1..] == rest;
    } else {
      assert s[0] == line[0] && line[0] in line;
      assert s[1..] == line[1..] + [NEWLINE] + rest;
      SplitLine(line[1..], rest);
      assert [line[0]] + line[1..] == line;
    }
  }

  lemma {:induction false} SplitRest(line: Bytes)
    requires NEWLINE !in line
    ensures Split(line) == [line]
  {
    if line != [] {
      SplitRest(line[1..]);
      assert [line[0]] + line[1..] == line;
    }
  }

  lemma NonEmptyCons(part: Bytes, rest: seq<Bytes>)
    ensures NonEmpty([part] + rest) == (if part != [] then [part] else []) + NonEmpty(rest)
  {
  }

  /** Position of the first newline, or the length. */
  function LineEnd(s: Bytes): (n: nat)
    ensures n <= |s| && NEWLINE !in s[..n] && (n < |s| ==> s[n] == NEWLINE)
  {
    if s == [] || s[0] == NEWLINE then 0
    else
      assert s == [s[0]] + s[1..];
      1 + LineEnd(s[1..])
  }

  /** A simple reading of a payload: line after line, empty ones dropped. */
  function Pieces(s: Bytes): seq<Bytes> {
    var n := LineEnd(s);
    var first := if n > 0 then [s[..n]] else [];
    if n == |s| then first else first + Pieces(s[n + 1..])
  }

  lemma {:induction false} SplitIsPieces(s: Bytes)
    ensures NonEmpty(Split(s)) == Pieces(s)
    decreases |s|
  {
    var n := LineEnd(s);
    if n == |s| {
      assert s[..n] == s;
      SplitRest(s);
      NonEmptyCons(s, []);
      assert [s] + [] == [s];
    } else {
      assert s == s[..n] + [NEWLINE] + s[n + 1..];
      SplitLine(s[..n], s[n + 1..]);
      NonEmptyCons(s[..n], Split(s[n + 1..]));
      SplitIsPieces(s[n + 1..]);
    }
  }

  lemma {:induction false} FinalNewlineIsDropped(s: Bytes)
    ensures Pieces(s + [NEWLINE]) == Pieces(s)
    decreases |s|
  {
    var t := s + [NEWLINE];
    var n := LineEnd(s);
    LineEndOfPrefix(s, t);
    if n == |s| {
      assert t[..n] == s[..n] && t[n + 1..] == [];
      assert Pieces([]) == [];
    } else {
      assert t[..n] == s[..n] && t[n + 1..] == s[n + 1..] + [NEWLINE];
      FinalNewlineIsDropped(s[n + 1..]);
    }
  }

  lemma {:induction false} LineEndOfPrefix(s: Bytes, t: Bytes)
    requires s <= t && (LineEnd(s) < |s| || |s| == |t| || t[|s|] == NEWLINE)
    ensures LineEnd(t) == LineEnd(s)
  {
  }

  lemma {:induction false} TrimKeepsPieces(s: Bytes)
    ensures Pieces(TrimNewlines(s)) == Pieces(s)
  {
    if s != [] && s[|s| - 1] == NEWLINE {
      TrimKeepsPieces(s[..|s| - 1]);
      assert s == s[..|s| - 1] + [NEWLINE];
      FinalNewlineIsDropped(s[..|s| - 1]);
    }
  }

  /** Trimming and splitting read a payload as the simple reading does. */
  lemma LinesArePieces(chunk: Bytes)
    ensures Lines(chunk) == Pieces(chunk)
  {
    SplitIsPieces(TrimNewlines(chunk));
    TrimKeepsPieces(chunk);
  }

  // ---------------------------------------------------------------------
  // Truncated streams

  /** `a` is a prefix of `b` except that its last line may be cut short. */
  ghost predicate Shortened(a: seq<Bytes>, b: seq<Bytes>) {
    && |a| <= |b| && (forall i :: 0 <= i < |a| - 1 ==> a[i] == b[i])
    && (|a| > 0 ==> a[|a| - 1] <= b[|a| - 1] && a[|a| - 1] != [])
  }

  lemma ShortenedAfter(common: seq<Bytes>, a: seq<Bytes>, b: seq<Bytes>)
    requires Shortened(a, b) && (forall i :: 0 <= i < |common| ==> common[i] != [])
    ensures Shortened(common + a, common + b)
  {
  }

  lemma ShortenedByMore(a: seq<Bytes>, b: seq<Bytes>, more: seq<Bytes>)
    requires Shortened(a, b)
    ensures Shortened(a, b + more)
  {
  }

  lemma {:induction false} PiecesNotEmpty(s: Bytes)
    ensures forall p :: p in Pieces(s) ==> p != []
    decreases |s|
  {
    var n := LineEnd(s);
    if n < |s| {
      PiecesNotEmpty(s[n + 1..]);
    }
  }

  /** A cut inside the first line leaves at most the start of that line. */
  lemma CutInLine(s: Bytes, k: nat)
    requires k <= LineEnd(s)
    ensures Shortened(Pieces(s[..k]), Pieces(s))
  {
  }

  lemma PiecesFrom(s: Bytes)
    requires LineEnd(s) < |s|
    ensures var n := LineEnd(s); Pieces(s) == (if n > 0 then [s[..n]] else []) + Pieces(s[n + 1..])
  {
  }

  lemma {:induction false} TruncatedPayload(s: Bytes, k: nat)
    requires k <= |s|
    ensures Shortened(Pieces(s[..k]), Pieces(s))
    decreases |s|
  {
    var n := LineEnd(s);
    if k <= n {
      CutInLine(s, k);
    } else {
      var cut := s[..k];
      LineEndWithin(s, k);
      assert cut[..n] == s[..n] && cut[n + 1..] == s[n + 1..][..k - n - 1];
      TruncatedPayload(s[n + 1..], k - n - 1);
      PiecesFrom(s);
      PiecesFrom(cut);
      ShortenedAfter(if n > 0 then [s[..n]] else [], Pieces(cut[n + 1..]), Pieces(s[n + 1..]));
    }
  }

  lemma {:induction false} NoNewline(s: Bytes)
    requires NEWLINE !in s
    ensures LineEnd(s) == |s| && Pieces(s) == if s == [] then [] else [s]
  {
    if s != [] {
      NoNewline(s[1..]);
    }
    assert s[..|s|] == s;
  }

  lemma {:induction false} LineEndWithin(s: Bytes, k: nat)
    requires LineEnd(s) < k <= |s|
    ensures LineEnd(s[..k]) == LineEnd(s)
  {
  }

  lemma ShortStream(raw: Bytes, all: seq<Bytes>)
    requires |raw| < 8
    ensures Shortened(Demuxed(raw), all)
  {
  }

  lemma CutFrame(f: Frame, rest: Bytes, k: nat)
    requires ValidFrame(f) && 8 <= k < 8 + |f.payload|
    ensures Demuxed((FrameBytes(f) + rest)[..k]) == Lines(f.payload[..k - 8])
  {
    var cut := (FrameBytes(f) + rest)[..k];
    assert cut[4..8] == Header(|f.payload|);
    assert ChunkLength(cut) == k - 8;
    assert cut[8..8 + (k - 8)] == f.payload[..k - 8];
    assert cut[8 + (k - 8)..] == [];
    assert Demuxed([]) == [];
  }

  lemma CutInFrame(f: Frame, rest: Bytes, k: nat)
    requires ValidFrame(f) && 8 <= k < 8 + |f.payload|
    ensures Shortened(Demuxed((FrameBytes(f) + rest)[..k]), Lines(f.payload))
  {
    CutFrame(f, rest, k);
    LinesArePieces(f.payload[..k - 8]);
    LinesArePieces(f.payload);
    TruncatedPayload(f.payload, k - 8);
  }

  lemma CutBehind(a: Bytes, b: Bytes, k: nat)
    requires |a| <= k <= |a| + |b|
    ensures (a + b)[..k] == a + b[..k - |a|]
  {
  }

  lemma ShortenedBehindFrame(f: Frame, cut: Bytes, rest: Bytes)
    requires ValidFrame(f) && Shortened(Demuxed(cut), Demuxed(rest))
    ensures Shortened(Demuxed(FrameBytes(f) + cut), Demuxed(FrameBytes(f) + rest))
  {
    FirstFrame(f, cut);
    FirstFrame(f, rest);
    LinesArePieces(f.payload);
    PiecesNotEmpty(f.payload);
    var lines := Lines(f.payload);
    assert forall i :: 0 <= i < |lines| ==> lines[i] in lines;
    ShortenedAfter(lines, Demuxed(cut), Demuxed(rest));
  }

  /** A stream cut off at any byte gives a prefix of the full result with at most
      its last line shortened. */
  lemma {:induction false} TruncatedStream(frames: seq<Frame>, k: nat)
    requires forall i :: 0 <= i < |frames| ==> ValidFrame(frames[i])
    requires k <= |Encode(frames)|
    ensures Shortened(Demuxed(Encode(frames)[..k]), Demuxed(Encode(frames)))
  {
    if k < 8 {
      ShortStream(Encode(frames)[..k], Demuxed(Encode(frames)));
    } else {
      var f, rest := frames[0], Encode(frames[1..]);
      assert Encode(frames) == FrameBytes(f) + rest;
      if k < 8 + |f.payload| {
        CutInFrame(f, rest, k);
        FirstFrame(f, rest);
        ShortenedByMore(Demuxed(Encode(frames)[..k]), Lines(f.payload), Demuxed(rest));
      } else {
        TruncatedStream(frames[1..], k - 8 - |f.payload|);
        CutBehind(FrameBytes(f), rest, k);
        ShortenedBehindFrame(f, rest[..k - 8 - |f.payload|], rest);
      }
    }
  }
}
