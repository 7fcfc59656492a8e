/** Splitting one oversized request line by time: `breq_fast_time_split` of fern/datareq.c. */
module TimeSplit {
  import opened DataRequests

  /** `ceil(a / b)` without rounding: the least `q` with `q * b >= a`. */
  function CeilDiv(a: nat, b: nat): (q: nat)
    requires b > 0
    ensures q * b >= a && (a > 0 ==> q > 0 && (q - 1) * b < a)
  {
    var q := (a + b - 1) / b;
    assert q * b <= a + b - 1 < (q + 1) * b;
    q
  }

  /** Into how many requests a line of estimated size `mem1` should go. */
  function WantedPieces(mem1: nat, max: nat): (n: nat)
    requires 0 < max < mem1
    ensures n > 1
  {
    var n := CeilDiv(mem1, max);
    assert n != 1 by {
      assert 1 * max < mem1;
    }
    n
  }

  /** Whole seconds of every piece of `ts` seconds; for a chunk size of 0 the quotient in the code is infinite, so
      pieces have no length. */
  function LengthFor(ts: nat, mem1: nat, max: nat): nat
    requires max < mem1
  {
    if max == 0 then 0 else CeilDiv(ts, WantedPieces(mem1, max))
  }

  function PieceLength(x: Line, mem1: nat, max: nat): nat
    requires 0 < max < mem1 && x.t1.sec <= x.t2.sec
  {
    LengthFor(x.t2.sec - x.t1.sec, mem1, max)
  }

  /** Seconds before the `i`th piece of `dt` seconds. */
  function Elapsed(dt: nat, i: int): int {
    i * dt
  }

  /** The `i`th piece of `dt` seconds. */
  function Piece(x: Line, dt: nat, i: nat): Line {
    x.(t1 := Time(x.t1.sec + Elapsed(dt, i), x.t1.nsec), t2 := Time(x.t1.sec + Elapsed(dt, i + 1), x.t1.nsec))
  }

  lemma ElapsedStep(dt: nat, i: int)
    ensures Elapsed(dt, i + 1) == Elapsed(dt, i) + dt && Elapsed(dt, 0) == 0
  {
    assert (i + 1) * dt == i * dt + dt;
  }

  /** As many pieces as reach the whole seconds of the line. */
  function Pieces(x: Line, mem1: nat, max: nat): (ps: seq<Line>)
    requires 0 < max < mem1 && x.t1.sec <= x.t2.sec
  {
    var dt := PieceLength(x, mem1, max);
    var ts := x.t2.sec - x.t1.sec;
    if ts == 0 then [] else seq(CeilDiv(ts, dt), (i: nat) => Piece(x, dt, i))
  }

  function PieceRequest(c: LineCodec, urls: map<string, string>, x: Line): Request {
    Request(false, urls, [c.format(x)])
  }

  function PieceRequests(c: LineCodec, urls: map<string, string>, ps: seq<Line>): (rs: seq<Request>)
    ensures |rs| == |ps| && forall i :: 0 <= i < |ps| ==> rs[i] == PieceRequest(c, urls, ps[i])
  {
    seq(|ps|, i requires 0 <= i < |ps| => PieceRequest(c, urls, ps[i]))
  }

  /** `breq_fast_from_breq_fast_line`. */
  method FromLine(c: LineCodec, x: BreqFastLine, r: BreqFast) returns (fr: BreqFast)
    ensures fresh(fr) && fr.Value() == PieceRequest(c, r.urls, x.Value())
  {
    fr := new BreqFast();
    fr.CopyUrls(r);
    assert fr.urls == r.urls;
    var newline := c.format(x.Value());
    fr.lines := fr.lines + [newline];
  }

  /** `breq_fast_time_split`; without a positive `max` its loop would not end. */
  method SplitByTime(c: LineCodec, x: BreqFastLine, r: BreqFast, mem1: nat, max: nat) returns (pieces: seq<BreqFast>)
    requires 0 < max < mem1 && x.t1.sec <= x.t2.sec
    modifies x
    ensures fresh(pieces) && Values(pieces) == PieceRequests(c, r.urls, Pieces(old(x.Value()), mem1, max))
  {
    hide CeilDiv, Elapsed, Pieces, PieceRequest, PieceRequests;
    ghost var line := x.Value();
    pieces := [];
    var nr := WantedPieces(mem1, max);
    var ts := x.t2.sec - x.t1.sec;
    var dt := CeilDiv(ts, nr);
    x.t2 := x.t1;
    var t := 0;
    ElapsedStep(dt, 0);
    while t < ts
      invariant t == Elapsed(dt, |pieces|) && x.t1 == x.t2 == Time(line.t1.sec + t, line.t1.nsec)
      invariant x.Value() == line.(t1 := x.t1, t2 := x.t2)
      invariant fresh(pieces) && (if |pieces| > 0 then 0 < ts && t - dt < ts else t == 0)
      invariant forall i :: 0 <= i < |pieces| ==> pieces[i].Value() == PieceRequest(c, r.urls, Piece(line, dt, i))
      decreases ts - t
    {
      ElapsedStep(dt, |pieces|);
      x.t2 := Time(x.t2.sec + dt, x.t2.nsec);
      var fr := FromLine(c, x, r);
      pieces := pieces + [fr];
      t := t + dt;
      x.t1 := x.t2;
    }
    if ts > 0 {
      ElapsedStep(dt, |pieces| - 1);
      CeilDivIsElapsed(ts, dt, |pieces|);
    }
    Assembled(c, r.urls, line, mem1, max, Values(pieces));
  }

  lemma CeilDivIsElapsed(a: nat, b: nat, q: nat)
    requires a > 0 && b > 0 && Elapsed(b, q - 1) < a <= Elapsed(b, q)
    ensures CeilDiv(a, b) == q
  {
    CeilDivIsLeast(a, b, q);
  }

  lemma Assembled(c: LineCodec, urls: map<string, string>, x: Line, mem1: nat, max: nat, vs: seq<Request>)
    requires 0 < max < mem1 && x.t1.sec <= x.t2.sec
    requires var ts := x.t2.sec - x.t1.sec;
             |vs| == if ts == 0 then 0 else CeilDiv(ts, PieceLength(x, mem1, max))
    requires forall i :: 0 <= i < |vs| ==> vs[i] == PieceRequest(c, urls, Piece(x, PieceLength(x, mem1, max), i))
    ensures vs == PieceRequests(c, urls, Pieces(x, mem1, max))
  {
    hide CeilDiv, Piece, PieceRequest;
  }

  lemma CeilDivIsLeast(a: nat, b: nat, q: nat)
    requires a > 0 && b > 0 && q * b >= a && q > 0 && (q - 1) * b < a
    ensures CeilDiv(a, b) == q
  {
    var p := CeilDiv(a, b);
    hide CeilDiv;
    if p < q {
      MulMonotone(p, q - 1, b);
    } else if q < p {
      MulMonotone(q, p - 1, b);
    }
  }

  lemma MulMonotone(p: nat, q: nat, b: nat)
    requires p <= q
    ensures p * b <= q * b
  {}

  // ----- What the pieces are -----

  /** Two neighbouring pieces meet. */
  lemma PiecesAbut(x: Line, dt: nat, i: nat)
    ensures Piece(x, dt, i).t2 == Piece(x, dt, i + 1).t1
    ensures Piece(x, dt, i).t2.sec - Piece(x, dt, i).t1.sec == dt
  {
    ElapsedStep(dt, i);
  }

  /** The pieces start where the line starts, follow each other without gap or overlap, are equally long,
      and end at or after the line's end but less than one piece after it. */
  lemma PiecesCover(x: Line, mem1: nat, max: nat)
    requires 0 < max < mem1 && x.t1.sec < x.t2.sec
    ensures var ps := Pieces(x, mem1, max);
            var dt := PieceLength(x, mem1, max);
            && 0 < |ps| <= WantedPieces(mem1, max)
            && ps[0].t1 == x.t1
            && (forall i :: 0 <= i < |ps| - 1 ==> ps[i].t2 == ps[i + 1].t1)
            && (forall i :: 0 <= i < |ps| ==> ps[i].t2.sec - ps[i].t1.sec == dt)
            && 0 <= ps[|ps| - 1].t2.sec - x.t2.sec < dt
  {
    hide CeilDiv;
    var ps, dt := Pieces(x, mem1, max), PieceLength(x, mem1, max);
    var ts, nr := x.t2.sec - x.t1.sec, WantedPieces(mem1, max);
    var n := CeilDiv(ts, dt);
    assert |ps| == n;
    assert n * dt - ts < dt by {
      assert (n - 1) * dt == n * dt - dt;
    }
    if n > nr {
      MulMonotone(nr, n - 1, dt);
      assert false;
    }
    forall i | 0 <= i < |ps|
      ensures ps[i].t2.sec - ps[i].t1.sec == dt && (i < |ps| - 1 ==> ps[i].t2 == ps[i + 1].t1)
    {
      PiecesAbut(x, dt, i);
    }
  }

  lemma {:induction false} ElapsedGrows(dt: nat, n: nat)
    requires dt > 0
    ensures Elapsed(dt, n) >= n
  {
    if n > 0 {
      ElapsedStep(dt, n - 1);
      ElapsedGrows(dt, n - 1);
    }
  }

  /** After some number of pieces of `dt` seconds the loop is at its end. */
  ghost predicate Reaches(dt: nat, ts: nat) {
    exists n: nat :: Elapsed(dt, n) >= ts
  }

  /** The loop gets to the end of the line exactly if the chunk size is positive. */
  lemma SplitEnds(ts: nat, mem1: nat, max: nat)
    requires ts > 0 && max < mem1
    ensures Reaches(LengthFor(ts, mem1, max), ts) <==> max > 0
  {
    var dt := LengthFor(ts, mem1, max);
    if max > 0 {
      ElapsedGrows(dt, ts);
    } else {
      forall n: nat
        ensures Elapsed(dt, n) < ts
      {
      }
    }
  }

  lemma CancelFactor(a: real, b: real, n: real)
    requires n > 0.0 && a * n <= b * n
    ensures a <= b
  {}

  lemma PieceSamples(sps: real, ts: real, dt: real, nr: real, max: real)
    requires sps > 0.0 && nr > 0.0 && (dt - 1.0) * nr <= ts && 4.0 * (sps * ts) <= nr * max
    ensures 4.0 * (sps * dt) <= max + 4.0 * sps
  {
    var more := 4.0 * sps * (dt - 1.0);
    assert more * nr == 4.0 * (sps * ((dt - 1.0) * nr));
    assert sps * ((dt - 1.0) * nr) <= sps * ts;
    CancelFactor(more, max, nr);
  }

  /** Every piece is estimated below `max` plus one second of samples and one sample more. */
  lemma PieceSize(x: Line, mem1: nat, max: nat, i: nat)
    requires x.t1.sec <= x.t2.sec && mem1 == LineSize(x) && 0 < max < mem1
    requires i < |Pieces(x, mem1, max)|
    ensures var p := Pieces(x, mem1, max)[i];
            && p.t1.sec <= p.t2.sec
            && LineSize(p) as real < max as real + 4.0 * (SamplesPerSecond(x.cha) + 1.0)
  {
    hide CeilDiv, SamplesPerSecond;
    var sps, ts, nr := SamplesPerSecond(x.cha), x.t2.sec - x.t1.sec, WantedPieces(mem1, max);
    var dt := PieceLength(x, mem1, max);
    PiecesAbut(x, dt, i);
    assert (dt - 1) * nr <= ts && mem1 <= nr * max;
    RangeSizeBounds(sps, ts);
    RangeSizeBounds(sps, dt);
    hide Pieces, RangeSize;
    PieceSamplesOfInts(sps, ts, dt, nr, max, mem1);
  }

  lemma RangeSizeBounds(sps: real, seconds: nat)
    requires sps > 0.0
    ensures 4.0 * (sps * seconds as real) <= RangeSize(sps, seconds) as real < 4.0 * (sps * seconds as real + 1.0)
  {
    RangeIsPositive(sps, seconds);
  }

  lemma PieceSamplesOfInts(sps: real, ts: nat, dt: nat, nr: nat, max: nat, mem1: nat)
    requires sps > 0.0 && nr > 0 && (dt - 1) * nr <= ts && mem1 <= nr * max
    requires 4.0 * (sps * ts as real) <= mem1 as real
    ensures 4.0 * (sps * dt as real) <= max as real + 4.0 * sps
  {
    ProductAsReal(dt - 1, nr);
    ProductAsReal(nr, max);
    PieceSamples(sps, ts as real, dt as real, nr as real, max as real);
  }
}
