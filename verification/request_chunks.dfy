/** Cutting requests into chunks of bounded size: `data_request_chunks` of fern/datareq.c. */
module RequestChunks {
  import opened Options
  import opened DataRequests
  import opened TimeSplit

  // ----- The greedy rule -----

  /** A request that is closed, unless it has no lines. */
  function Closed(urls: map<string, string>, lines: seq<string>): seq<Request> {
    if lines == [] then [] else [Request(false, urls, lines)]
  }

  /** What becomes of one oversized line. */
  function SplitChunks(c: LineCodec, urls: map<string, string>, x: Line, max: nat): seq<Request>
    requires x.t1.sec <= x.t2.sec && 0 < max < LineSize(x)
  {
    PieceRequests(c, urls, Pieces(x, LineSize(x), max))
  }

  predicate Oversized(c: LineCodec, line: string, max: nat) {
    var x := ParseLine(c, line);
    x.Some? && LineSize(x.value) > max
  }

  /** Chunking comes to an end: with a chunk size of 0 it does only if no valid line has to be split. */
  predicate Ends(c: LineCodec, lines: seq<string>, max: nat) {
    max > 0 || forall k :: 0 <= k < |lines| ==> !Oversized(c, lines[k], max)
  }

  predicate AllEnd(c: LineCodec, reqs: seq<Request>, max: nat) {
    forall i :: 0 <= i < |reqs| ==> Ends(c, reqs[i].lines, max)
  }

  /** The chunks of the remaining lines, when `open` are already collected with `mem` estimated bytes. */
  function ChunkLines(c: LineCodec, urls: map<string, string>, lines: seq<string>, open: seq<string>, mem: nat,
                      max: nat)
    : seq<Request>
    requires Ends(c, lines, max)
    decreases |lines|
  {
    if lines == [] then Closed(urls, open)
    else
      var rest := lines[1..];
      assert max == 0 ==> !Oversized(c, lines[0], max);
      var x := ParseLine(c, lines[0]);
      if x.None? then ChunkLines(c, urls, rest, open, mem, max)
      else if LineSize(x.value) > max then
        Closed(urls, open) + SplitChunks(c, urls, x.value, max)
        + ChunkLines(c, urls, rest, [], if open == [] then mem else 0, max)
      else if mem + LineSize(x.value) > max then
        Closed(urls, open + [lines[0]]) + ChunkLines(c, urls, rest, [], 0, max)
      else ChunkLines(c, urls, rest, open + [lines[0]], mem + LineSize(x.value), max)
  }

  function Chunked(c: LineCodec, reqs: seq<Request>, max: nat): seq<Request>
    requires AllEnd(c, reqs, max)
  {
    if reqs == [] then []
    else Chunked(c, reqs[..|reqs| - 1], max)
         + ChunkLines(c, reqs[|reqs| - 1].urls, reqs[|reqs| - 1].lines, [], 0, max)
  }

  // ----- The program -----

  /** `data_request_chunks`; parameters, and the requests it replaces, are left alone. */
  method Chunks(c: LineCodec, fdr: DataRequest, max: nat)
    requires AllEnd(c, Values(fdr.reqs), max)
    modifies fdr`reqs
    ensures Values(fdr.reqs) == Chunked(c, old(Values(fdr.reqs)), max) && fresh(fdr.reqs)
  {
    hide Chunked, ChunkLines;
    var given := fdr.reqs;
    var all: seq<BreqFast> := [];
    ghost var before := Values(given);
    ChunkedNone(c, before, max);
    for i := 0 to |given|
      invariant fresh(all) && Values(all) == Chunked(c, before[..i], max)
    {
      ChunkedStep(c, before, i, max);
      var chunks := ChunksOf(c, given[i], max);
      ValuesConcat(all, chunks);
      all := all + chunks;
    }
    assert before[..|given|] == before;
    fdr.reqs := all;
  }

  lemma ChunkedNone(c: LineCodec, reqs: seq<Request>, max: nat)
    ensures Chunked(c, reqs[..0], max) == []
  {}

  lemma ChunkedStep(c: LineCodec, reqs: seq<Request>, i: nat, max: nat)
    requires AllEnd(c, reqs, max) && i < |reqs|
    ensures Chunked(c, reqs[..i + 1], max)
            == Chunked(c, reqs[..i], max) + ChunkLines(c, reqs[i].urls, reqs[i].lines, [], 0, max)
  {
    assert reqs[..i + 1][..i] == reqs[..i];
  }

  lemma ValuesConcat(a: seq<BreqFast>, b: seq<BreqFast>)
    ensures Values(a + b) == Values(a) + Values(b)
  {}

  /** A new request with the URLs of another. */
  method NewLike(r: BreqFast) returns (fr: BreqFast)
    ensures fresh(fr) && fr.Value() == Request(false, r.urls, [])
  {
    fr := new BreqFast();
    fr.CopyUrls(r);
    assert fr.urls == r.urls;
  }

  /** `FR_APPEND`: a request with lines is closed and another one opened. */
  method Close(fr: BreqFast, chunks: seq<BreqFast>, r: BreqFast, mem: nat)
    returns (fr': BreqFast, chunks': seq<BreqFast>, mem': nat)
    requires fr.urls == r.urls && !fr.comment
    ensures Values(chunks') == Values(chunks) + Closed(r.urls, fr.lines)
    ensures fr'.Value() == Request(false, r.urls, [])
    ensures if fr.lines == [] then fr' == fr && chunks' == chunks && mem' == mem
            else fresh(fr') && chunks' == chunks + [fr] && mem' == 0
  {
    fr', chunks', mem' := fr, chunks, mem;
    if |fr.lines| > 0 {
      chunks' := chunks + [fr];
      fr' := NewLike(r);
      mem' := 0;
    }
  }

  /** Who may be in a list that grew from `chunks` and the open request. */
  twostate predicate Grown(chunks: seq<BreqFast>, fr: BreqFast, new chunks': seq<BreqFast>) {
    forall k :: 0 <= k < |chunks'| ==> chunks'[k] == fr || chunks'[k] in chunks || fresh(chunks'[k])
  }

  /** An oversized line: the open request is closed, and the line is split by time. */
  method SplitLine(c: LineCodec, x: BreqFastLine, r: BreqFast, max: nat, fr: BreqFast, chunks: seq<BreqFast>, mem: nat)
    returns (fr': BreqFast, chunks': seq<BreqFast>, mem': nat)
    requires x.t1.sec <= x.t2.sec && 0 < max < LineSize(x.Value())
    requires fr !in chunks && fr != r && fr.Value() == Request(false, r.urls, fr.lines)
    modifies x
    ensures fr' !in chunks' && fr' != r && fr'.Value() == Request(false, r.urls, [])
    ensures (fr' == fr || fresh(fr')) && mem' == if fr.lines == [] then mem else 0
    ensures Grown(chunks, fr, chunks')
    ensures Values(chunks')
            == old(Values(chunks)) + Closed(r.urls, fr.lines) + SplitChunks(c, r.urls, old(x.Value()), max)
  {
    hide Pieces, PieceRequests;
    fr', chunks', mem' := Close(fr, chunks, r, mem);
    var pieces := SplitByTime(c, x, r, LineSize(x.Value()), max);
    ValuesConcat(chunks', pieces);
    chunks' := chunks' + pieces;
  }

  /** Any other line joins the open request, which is closed once it is too big. */
  method AddLine(line: string, mem1: nat, r: BreqFast, max: nat, fr: BreqFast, chunks: seq<BreqFast>, mem: nat)
    returns (fr': BreqFast, chunks': seq<BreqFast>, mem': nat)
    requires fr !in chunks && fr != r && fr.Value() == Request(false, r.urls, fr.lines)
    modifies fr`lines
    ensures fr' !in chunks' && fr' != r && fr'.Value() == Request(false, r.urls, fr'.lines)
    ensures (fr' == fr || fresh(fr')) && Grown(chunks, fr, chunks')
    ensures if mem + mem1 > max
            then Values(chunks') == old(Values(chunks)) + Closed(r.urls, old(fr.lines) + [line]) && fr'.lines == []
                    && mem' == 0
            else Values(chunks') == old(Values(chunks)) && fr'.lines == old(fr.lines) + [line] && mem' == mem + mem1
  {
    fr.lines := fr.lines + [line];
    fr', chunks', mem' := fr, chunks, mem + mem1;
    if mem' > max {
      fr', chunks', mem' := Close(fr, chunks, r, mem');
    }
  }

  /** One valid line. */
  method Place(c: LineCodec, x: BreqFastLine, line: string, r: BreqFast, max: nat,
               fr: BreqFast, chunks: seq<BreqFast>, mem: nat, ghost rest: seq<string>)
    returns (fr': BreqFast, chunks': seq<BreqFast>, mem': nat)
    requires ParseLine(c, line) == Some(x.Value()) && Ends(c, [line] + rest, max) && Ends(c, rest, max)
    requires fr !in chunks && fr != r && fr.Value() == Request(false, r.urls, fr.lines)
    modifies x, fr`lines
    ensures fr' !in chunks' && fr' != r && fr'.Value() == Request(false, r.urls, fr'.lines)
    ensures (fr' == fr || fresh(fr')) && Grown(chunks, fr, chunks')
    ensures Values(chunks') + ChunkLines(c, r.urls, rest, fr'.lines, mem', max)
            == old(Values(chunks)) + ChunkLines(c, r.urls, [line] + rest, old(fr.lines), mem, max)
  {
    hide ChunkLines, ParseLine, SplitChunks, Values, LineSize, Closed, Grown;
    ghost var before := Values(chunks);
    ChunkStep(c, r.urls, line, rest, fr.lines, mem, max);
    var mem1 := LineSize(x.Value());
    if mem1 > max {
      fr', chunks', mem' := SplitLine(c, x, r, max, fr, chunks, mem);
    } else {
      fr', chunks', mem' := AddLine(line, mem1, r, max, fr, chunks, mem);
    }
  }

  lemma ChunkStep(c: LineCodec, urls: map<string, string>, line: string, rest: seq<string>, open: seq<string>,
                  mem: nat, max: nat)
    requires Ends(c, [line] + rest, max) && ParseLine(c, line).Some?
    ensures Ends(c, rest, max) && (LineSize(ParseLine(c, line).value) > max ==> max > 0)
    ensures var x := ParseLine(c, line).value;
            ChunkLines(c, urls, [line] + rest, open, mem, max)
            == if LineSize(x) > max then
                 Closed(urls, open) + SplitChunks(c, urls, x, max)
                 + ChunkLines(c, urls, rest, [], if open == [] then mem else 0, max)
               else if mem + LineSize(x) > max then
                 Closed(urls, open + [line]) + ChunkLines(c, urls, rest, [], 0, max)
               else ChunkLines(c, urls, rest, open + [line], mem + LineSize(x), max)
  {
    assert ([line] + rest)[1..] == rest;
  }

  /** The inner loop of `data_request_chunks`: the chunks of one request. */
  method ChunksOf(c: LineCodec, r: BreqFast, max: nat) returns (chunks: seq<BreqFast>)
    requires Ends(c, r.lines, max)
    ensures fresh(chunks) && Values(chunks) == ChunkLines(c, r.urls, r.lines, [], 0, max)
  {
    hide ChunkLines, ParseLine;
    var fr := NewLike(r);
    var x := new BreqFastLine();
    var mem := 0;
    chunks := [];
    ghost var goal := ChunkLines(c, r.urls, r.lines, [], 0, max);
    assert r.lines[0..] == r.lines;
    for j := 0 to |r.lines|
      invariant fresh(chunks) && fresh(fr) && fr !in chunks && fresh(x)
      invariant fr.Value() == Request(false, r.urls, fr.lines)
      invariant Values(chunks) + ChunkLines(c, r.urls, r.lines[j..], fr.lines, mem, max) == goal
    {
      var line := r.lines[j];
      assert r.lines[j..] == [line] + r.lines[j + 1..];
      var ok := x.Parse(c, line);
      if ok {
        fr, chunks, mem := Place(c, x, line, r, max, fr, chunks, mem, r.lines[j + 1..]);
      } else {
        InvalidLine(c, r.urls, line, r.lines[j + 1..], fr.lines, mem, max);
      }
    }
    NoMoreLines(c, r.urls, r.lines[|r.lines|..], fr.lines, mem, max);
    if |fr.lines| > 0 {
      ValuesConcat(chunks, [fr]);
      chunks := chunks + [fr];
    }
  }

  lemma InvalidLine(c: LineCodec, urls: map<string, string>, line: string, rest: seq<string>, open: seq<string>,
                    mem: nat, max: nat)
    requires Ends(c, [line] + rest, max) && ParseLine(c, line).None?
    ensures Ends(c, rest, max)
    ensures ChunkLines(c, urls, [line] + rest, open, mem, max) == ChunkLines(c, urls, rest, open, mem, max)
  {
    assert ([line] + rest)[1..] == rest;
  }

  lemma NoMoreLines(c: LineCodec, urls: map<string, string>, lines: seq<string>, open: seq<string>, mem: nat, max: nat)
    requires lines == []
    ensures ChunkLines(c, urls, lines, open, mem, max) == Closed(urls, open)
  {}
}
