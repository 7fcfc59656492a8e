/** What chunking keeps and what it bounds, for every collection of requests. */
module ChunkTheorems {
  import opened DataRequests
  import opened TimeSplit
  import opened RequestChunks

  /** All lines of some requests, in order. */
  function Lines(rs: seq<Request>): seq<string> {
    if rs == [] then [] else Lines(rs[..|rs| - 1]) + rs[|rs| - 1].lines
  }

  /** The pieces of an oversized line, as text. */
  function PieceLines(c: LineCodec, line: string, max: nat): seq<string>
    requires max > 0 && Oversized(c, line, max)
  {
    var x := ParseLine(c, line).value;
    Lines(SplitChunks(c, map[], x, max))
  }

  /** What a line is replaced by: nothing if it is not valid, its time pieces if it is oversized, else itself. */
  function Replacement(c: LineCodec, line: string, max: nat): seq<string>
    requires max > 0 || !Oversized(c, line, max)
  {
    if ParseLine(c, line).None? then []
    else if Oversized(c, line, max) then PieceLines(c, line, max)
    else [line]
  }

  function Replaced(c: LineCodec, lines: seq<string>, max: nat): seq<string>
    requires Ends(c, lines, max)
  {
    assert lines != [] && max == 0 ==> !Oversized(c, lines[0], max);
    if lines == [] then [] else Replacement(c, lines[0], max) + Replaced(c, lines[1..], max)
  }

  // ----- When chunking ends -----

  /** The loop that splits an oversized line gets to its end. */
  ghost predicate SplitFinishes(c: LineCodec, line: string, max: nat)
    requires Oversized(c, line, max)
  {
    var x := ParseLine(c, line).value;
    Reaches(LengthFor(x.t2.sec - x.t1.sec, LineSize(x), max), x.t2.sec - x.t1.sec)
  }

  /** Chunking ends if and only if the chunk size is positive or no line has to be split. */
  lemma ChunkingEnds(c: LineCodec, lines: seq<string>, max: nat)
    ensures Ends(c, lines, max)
            <==> forall k :: 0 <= k < |lines| && Oversized(c, lines[k], max) ==> SplitFinishes(c, lines[k], max)
  {
    forall k | 0 <= k < |lines| && Oversized(c, lines[k], max)
      ensures SplitFinishes(c, lines[k], max) <==> max > 0
    {
      var x := ParseLine(c, lines[k]).value;
      assert x.t1.sec != x.t2.sec;
      hide ParseLine, LineSize, LengthFor, Reaches;
      SplitEnds(x.t2.sec - x.t1.sec, LineSize(x), max);
    }
    hide Oversized, SplitFinishes;
  }

  // ----- Conservation -----

  lemma {:induction false} LinesConcat(a: seq<Request>, b: seq<Request>)
    ensures Lines(a + b) == Lines(a) + Lines(b)
  {
    if b == [] {
      assert a + b == a;
    } else {
      var last := |b| - 1;
      assert (a + b)[..|a| + last] == a + b[..last];
      LinesConcat(a, b[..last]);
    }
  }

  lemma {:induction false} ReplacedConcat(c: LineCodec, a: seq<string>, b: seq<string>, max: nat)
    requires Ends(c, a, max) && Ends(c, b, max)
    ensures Ends(c, a + b, max) && Replaced(c, a + b, max) == Replaced(c, a, max) + Replaced(c, b, max)
    decreases |a|
  {
    hide Replacement, Oversized;
    if a == [] {
      assert a + b == b;
    } else {
      assert (a + b)[1..] == a[1..] + b;
      ReplacedConcat(c, a[1..], b, max);
    }
  }

  /** The text of pieces does not depend on the URLs they go to. */
  lemma {:induction false} LinesOfPieces(c: LineCodec, urls: map<string, string>, ps: seq<Line>)
    ensures Lines(PieceRequests(c, urls, ps)) == Lines(PieceRequests(c, map[], ps))
  {
    if ps != [] {
      var last := |ps| - 1;
      LinesOfPieces(c, urls, ps[..last]);
      assert PieceRequests(c, urls, ps)[..last] == PieceRequests(c, urls, ps[..last]);
      assert PieceRequests(c, map[], ps)[..last] == PieceRequests(c, map[], ps[..last]);
    }
  }

  lemma LinesOfSplit(c: LineCodec, urls: map<string, string>, line: string, max: nat)
    requires max > 0 && Oversized(c, line, max)
    ensures Lines(SplitChunks(c, urls, ParseLine(c, line).value, max)) == Replacement(c, line, max)
  {
    var x := ParseLine(c, line).value;
    LinesOfPieces(c, urls, Pieces(x, LineSize(x), max));
  }

  lemma LinesOfClosed(urls: map<string, string>, lines: seq<string>)
    ensures Lines(Closed(urls, lines)) == lines
  {
    if lines != [] {
      assert Lines([Request(false, urls, lines)]) == Lines([]) + lines;
    }
  }

  lemma {:induction false} ChunkLinesConserve(c: LineCodec, urls: map<string, string>, lines: seq<string>,
                                              open: seq<string>, mem: nat, max: nat)
    requires Ends(c, lines, max)
    ensures Lines(ChunkLines(c, urls, lines, open, mem, max)) == open + Replaced(c, lines, max)
    decreases |lines|
  {
    hide Lines, LineSize, ParseLine, Closed, SplitChunks;
    LinesOfClosed(urls, open);
    if lines != [] {
      var line, rest := lines[0], lines[1..];
      var x := ParseLine(c, line);
      if x.None? {
        ChunkLinesConserve(c, urls, rest, open, mem, max);
      } else if LineSize(x.value) > max {
        var mem' := if open == [] then mem else 0;
        ChunkLinesConserve(c, urls, rest, [], mem', max);
        LinesOfSplit(c, urls, line, max);
        var closed, split := Closed(urls, open), SplitChunks(c, urls, x.value, max);
        var chunks := ChunkLines(c, urls, rest, [], mem', max);
        LinesConcat(closed, split);
        LinesConcat(closed + split, chunks);
      } else if mem + LineSize(x.value) > max {
        ChunkLinesConserve(c, urls, rest, [], 0, max);
        LinesOfClosed(urls, open + [line]);
        LinesConcat(Closed(urls, open + [line]), ChunkLines(c, urls, rest, [], 0, max));
      } else {
        ChunkLinesConserve(c, urls, rest, open + [line], mem + LineSize(x.value), max);
      }
    }
  }

  lemma NothingReplaced(c: LineCodec, max: nat)
    ensures Ends(c, [], max) && Replaced(c, [], max) == []
  {}

  /** The output lines, in order, are the input lines with every line replaced in its place. */
  lemma {:induction false} ChunkingConservesLines(c: LineCodec, reqs: seq<Request>, max: nat)
    requires AllEnd(c, reqs, max)
    ensures Ends(c, Lines(reqs), max) && Lines(Chunked(c, reqs, max)) == Replaced(c, Lines(reqs), max)
  {
    hide ChunkLines, Ends, Replaced;
    NothingReplaced(c, max);
    if reqs != [] {
      var last := |reqs| - 1;
      var init, r := reqs[..last], reqs[last];
      ChunkingConservesLines(c, init, max);
      ChunkLinesConserve(c, r.urls, r.lines, [], 0, max);
      LinesConcat(Chunked(c, init, max), ChunkLines(c, r.urls, r.lines, [], 0, max));
      ReplacedConcat(c, Lines(init), r.lines, max);
    }
  }

  // ----- Every chunk -----

  function SizeOf(c: LineCodec, line: string): nat {
    var x := ParseLine(c, line);
    if x.Some? then LineSize(x.value) else 0
  }

  /** The estimated size of a request. */
  function TotalSize(c: LineCodec, lines: seq<string>): nat {
    if lines == [] then 0 else TotalSize(c, lines[..|lines| - 1]) + SizeOf(c, lines[|lines| - 1])
  }

  /** One time piece of an oversized line among `source`. */
  ghost predicate IsTimePiece(c: LineCodec, r: Request, source: seq<string>, max: nat) {
    && max > 0
    && exists k, i ::
         0 <= k < |source| && 0 <= i && Oversized(c, source[k], max) && IsPiece(c, r, source[k], max, i)
  }

  ghost predicate IsPiece(c: LineCodec, r: Request, line: string, max: nat, i: nat)
    requires max > 0 && Oversized(c, line, max)
  {
    var x := ParseLine(c, line).value;
    var ps := Pieces(x, LineSize(x), max);
    i < |ps| && r.lines == [c.format(ps[i])]
  }

  /** A chunk made from the request `of`. */
  ghost predicate GoodChunk(c: LineCodec, r: Request, of: Request, max: nat) {
    && r.urls == of.urls && r.lines != [] && !r.comment
    && (IsTimePiece(c, r, of.lines, max)
        || (TotalSize(c, r.lines) <= 2 * max
            && forall k :: 0 <= k < |r.lines| ==> r.lines[k] in of.lines && ParseLine(c, r.lines[k]).Some?))
  }

  ghost predicate GoodChunks(c: LineCodec, rs: seq<Request>, of: Request, max: nat) {
    forall i :: 0 <= i < |rs| ==> GoodChunk(c, rs[i], of, max)
  }

  lemma SplitsAreGood(c: LineCodec, of: Request, k: nat, max: nat)
    requires max > 0 && k < |of.lines| && Oversized(c, of.lines[k], max)
    ensures GoodChunks(c, SplitChunks(c, of.urls, ParseLine(c, of.lines[k]).value, max), of, max)
  {
    var x := ParseLine(c, of.lines[k]).value;
    var rs := SplitChunks(c, of.urls, x, max);
    hide Oversized, ParseLine, Pieces, LineSize;
    forall i | 0 <= i < |rs|
      ensures GoodChunk(c, rs[i], of, max)
    {
      assert IsPiece(c, rs[i], of.lines[k], max, i);
    }
  }

  /** The lines collected so far: valid lines of the request, of `mem` bytes in all. */
  ghost predicate Collected(c: LineCodec, open: seq<string>, of: Request, mem: nat) {
    && mem == TotalSize(c, open)
    && forall k :: 0 <= k < |open| ==> open[k] in of.lines && ParseLine(c, open[k]).Some?
  }

  lemma OneMoreLine(c: LineCodec, open: seq<string>, line: string, of: Request, mem: nat)
    requires Collected(c, open, of, mem) && line in of.lines && ParseLine(c, line).Some?
    ensures Collected(c, open + [line], of, mem + SizeOf(c, line))
  {
    assert (open + [line])[..|open|] == open;
  }

  lemma ClosedIsGood(c: LineCodec, open: seq<string>, of: Request, mem: nat, max: nat)
    requires Collected(c, open, of, mem) && mem <= 2 * max
    ensures GoodChunks(c, Closed(of.urls, open), of, max)
  {}

  lemma {:induction false} ChunkLinesAreGood(c: LineCodec, of: Request, j: nat, open: seq<string>, mem: nat, max: nat)
    requires Ends(c, of.lines, max) && j <= |of.lines| && Collected(c, open, of, mem) && mem <= max
    ensures Ends(c, of.lines[j..], max)
    ensures GoodChunks(c, ChunkLines(c, of.urls, of.lines[j..], open, mem, max), of, max)
    decreases |of.lines| - j
  {
    hide Collected, GoodChunk, ParseLine, Closed, SplitChunks, LineSize;
    ClosedIsGood(c, open, of, mem, max);
    if j < |of.lines| {
      var line := of.lines[j];
      assert of.lines[j..][0] == line && of.lines[j..][1..] == of.lines[j + 1..];
      var x := ParseLine(c, line);
      NothingCollected(c, of);
      if x.None? {
        ChunkLinesAreGood(c, of, j + 1, open, mem, max);
      } else if LineSize(x.value) > max {
        SplitsAreGood(c, of, j, max);
        NoneIsNone(c, open, of, mem);
        ChunkLinesAreGood(c, of, j + 1, [], 0, max);
      } else {
        OneMoreLine(c, open, line, of, mem);
        if mem + LineSize(x.value) > max {
          ClosedIsGood(c, open + [line], of, mem + LineSize(x.value), max);
          ChunkLinesAreGood(c, of, j + 1, [], 0, max);
        } else {
          ChunkLinesAreGood(c, of, j + 1, open + [line], mem + LineSize(x.value), max);
        }
      }
    }
  }

  lemma NothingCollected(c: LineCodec, of: Request)
    ensures Collected(c, [], of, 0)
  {}

  lemma NoneIsNone(c: LineCodec, open: seq<string>, of: Request, mem: nat)
    requires Collected(c, open, of, mem)
    ensures open == [] ==> mem == 0
  {}

  /** Every chunk belongs to one of the requests: it has its URLs and at least one line, it is not commented out,
      and it is one time piece or some valid lines of at most twice the size asked for. */
  lemma {:induction false} ChunksAreGood(c: LineCodec, reqs: seq<Request>, max: nat, i: nat)
    requires AllEnd(c, reqs, max) && i < |Chunked(c, reqs, max)|
    ensures exists k :: 0 <= k < |reqs| && GoodChunk(c, Chunked(c, reqs, max)[i], reqs[k], max)
  {
    hide ChunkLines, GoodChunk;
    var last := |reqs| - 1;
    var init, of := reqs[..last], reqs[last];
    var before := Chunked(c, init, max);
    if i < |before| {
      ChunksAreGood(c, init, max, i);
      var k :| 0 <= k < |init| && GoodChunk(c, before[i], init[k], max);
      assert reqs[k] == init[k];
    } else {
      assert of.lines[0..] == of.lines;
      NothingCollected(c, of);
      ChunkLinesAreGood(c, of, 0, [], 0, max);
    }
  }

  // ----- Bytes -----

  /** The bytes of a line, from what it says. */
  function BytesOf(c: LineCodec, line: string): nat {
    var x := c.scan(line);
    if x.Some? && x.value.t1.sec <= x.value.t2.sec then Bytes(x.value.cha, x.value.t2.sec - x.value.t1.sec) else 0
  }

  function BytesOfAll(c: LineCodec, lines: seq<string>): nat {
    if lines == [] then 0 else BytesOfAll(c, lines[..|lines| - 1]) + BytesOf(c, lines[|lines| - 1])
  }

  lemma {:induction false} TotalIsBytes(c: LineCodec, lines: seq<string>)
    requires forall k :: 0 <= k < |lines| ==> ParseLine(c, lines[k]).Some?
    ensures TotalSize(c, lines) == BytesOfAll(c, lines)
  {
    hide LineSize, Bytes;
    if lines != [] {
      var last := |lines| - 1;
      TotalIsBytes(c, lines[..last]);
      assert ParseLine(c, lines[last]).Some?;
      LineSizeIs(ParseLine(c, lines[last]).value);
    }
  }

  /** Counted in whole bytes, band by band: a chunk that is not a time piece has at most twice the size asked for. */
  lemma ChunksHaveBytes(c: LineCodec, reqs: seq<Request>, max: nat, i: nat)
    requires AllEnd(c, reqs, max) && i < |Chunked(c, reqs, max)|
    ensures var r := Chunked(c, reqs, max)[i];
            BytesOfAll(c, r.lines) <= 2 * max || exists k :: 0 <= k < |reqs| && IsTimePiece(c, r, reqs[k].lines, max)
  {
    hide Chunked, IsTimePiece, ParseLine, TotalSize, BytesOfAll;
    ChunksAreGood(c, reqs, max, i);
    var r := Chunked(c, reqs, max)[i];
    var k :| 0 <= k < |reqs| && GoodChunk(c, r, reqs[k], max);
    if !IsTimePiece(c, r, reqs[k].lines, max) {
      TotalIsBytes(c, r.lines);
    }
  }

  // ----- Comment flags -----

  lemma OversizedHasPieces(c: LineCodec, urls: map<string, string>, line: string, max: nat)
    requires max > 0 && Oversized(c, line, max)
    ensures SplitChunks(c, urls, ParseLine(c, line).value, max) != []
  {
    var x := ParseLine(c, line).value;
    assert x.t1.sec != x.t2.sec;
    PiecesCover(x, LineSize(x), max);
  }

  /** Chunking gives nothing only when there is nothing to give: no line is open, and none to come is valid. */
  lemma {:induction false} NothingIsChunked(c: LineCodec, urls: map<string, string>, lines: seq<string>,
                                            open: seq<string>, mem: nat, max: nat)
    requires Ends(c, lines, max)
    ensures ChunkLines(c, urls, lines, open, mem, max) == []
            <==> open == [] && forall k :: 0 <= k < |lines| ==> ParseLine(c, lines[k]).None?
    decreases |lines|
  {
    hide LineSize, ParseLine, SplitChunks;
    if lines != [] {
      var line, rest := lines[0], lines[1..];
      var x := ParseLine(c, line);
      if x.None? {
        NothingIsChunked(c, urls, rest, open, mem, max);
        assert forall k :: 0 < k < |lines| ==> lines[k] == rest[k - 1];
        assert forall k :: 0 <= k < |rest| ==> rest[k] == lines[k + 1];
      } else if LineSize(x.value) > max {
        OversizedHasPieces(c, urls, line, max);
      } else if mem + LineSize(x.value) <= max {
        NothingIsChunked(c, urls, rest, open + [line], mem + LineSize(x.value), max);
      }
    }
  }

  lemma ChunkedOne(c: LineCodec, of: Request, max: nat)
    requires Ends(c, of.lines, max)
    ensures Chunked(c, [of], max) == ChunkLines(c, of.urls, of.lines, [], 0, max)
  {
    hide ChunkLines;
    assert [of][..0] == [] && Chunked(c, [of][..0], max) == [];
  }

  /** Every chunk of a request has the flag of the request. */
  predicate KeepsComment(c: LineCodec, of: Request, max: nat)
    requires Ends(c, of.lines, max)
  {
    forall i :: 0 <= i < |Chunked(c, [of], max)| ==> Chunked(c, [of], max)[i].comment == of.comment
  }

  /** The comment flag is kept if and only if the request is not commented out or has no valid line: what was
      commented out is to be downloaded again. */
  lemma CommentIsKept(c: LineCodec, of: Request, max: nat)
    requires Ends(c, of.lines, max)
    ensures KeepsComment(c, of, max)
            <==> !of.comment || forall k :: 0 <= k < |of.lines| ==> ParseLine(c, of.lines[k]).None?
  {
    hide ParseLine, ChunkLines, IsTimePiece, TotalSize;
    var chunks := Chunked(c, [of], max);
    ChunkedOne(c, of, max);
    NothingIsChunked(c, of.urls, of.lines, [], 0, max);
    forall i | 0 <= i < |chunks|
      ensures !chunks[i].comment
    {
      ChunksAreGood(c, [of], max, i);
    }
    if chunks != [] {
      assert !chunks[0].comment;
    }
  }

  /** One valid line that is commented out comes out of chunking as a request that is not. */
  lemma CommentIsLost(c: LineCodec, urls: map<string, string>, line: string, max: nat)
    requires ParseLine(c, line).Some? && (max > 0 || !Oversized(c, line, max))
    ensures var of := Request(true, urls, [line]);
            && !KeepsComment(c, of, max)
            && Chunked(c, [of], max) != [] && Lines(Chunked(c, [of], max)) == Replacement(c, line, max)
  {
    hide ParseLine, Chunked, Replacement, KeepsComment;
    var of := Request(true, urls, [line]);
    assert of.lines[0] == line;
    CommentIsKept(c, of, max);
    ChunkedOne(c, of, max);
    NothingIsChunked(c, urls, of.lines, [], 0, max);
    ChunkingConservesLines(c, [of], max);
    OneLine(c, of, line, max);
  }

  lemma OneLine(c: LineCodec, of: Request, line: string, max: nat)
    requires of.lines == [line] && (max > 0 || !Oversized(c, line, max))
    ensures Lines([of]) == [line]
    ensures Ends(c, [line], max) && Replaced(c, [line], max) == Replacement(c, line, max)
  {
    hide Replacement, Oversized;
    assert [of][..0] == [] && Lines([of]) == [] + of.lines;
    assert Ends(c, [line], max);
    assert [line][1..] == [];
    assert Replaced(c, [line], max) == Replacement(c, line, max) + [];
  }
}
