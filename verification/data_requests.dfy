/** Data requests of fern/datareq.c: their lines, estimated sizes, and requests as collections of lines. */
module DataRequests {
  import opened Options

  datatype Time = Time(sec: int, nsec: int)

  /** A request line: one channel and a time range. */
  datatype Line = Line(net: string, sta: string, loc: string, cha: string, t1: Time, t2: Time)

  /** The C library's scanning and formatting of request lines, with their dates. */
  datatype LineFormat = LineFormat(scan: string -> Option<Line>, format: Line -> string)

  /** There are no six fields in an empty line. */
  type LineCodec = c: LineFormat | c.scan("") == None
    witness LineFormat((s: string) => None, (x: Line) => "")

  const LONGEST_DURATION: int := 60 * 60 * 24 * 366
  const SIZE_OF_FLOAT: nat := 4

  /** `timespec64_cmp` is positive. */
  predicate After(a: Time, b: Time) {
    a.sec > b.sec || (a.sec == b.sec && a.nsec > b.nsec)
  }

  /** `breq_fast_line_parse`. */
  function ParseLine(c: LineCodec, line: string): (r: Option<Line>)
    ensures r.Some? ==> !After(r.value.t1, r.value.t2)
    ensures r.Some? ==> 0 <= r.value.t2.sec - r.value.t1.sec <= LONGEST_DURATION
  {
    var scanned := c.scan(line);
    if scanned.None? then None
    else
      var x := scanned.value;
      if After(x.t1, x.t2) || x.t2.sec - x.t1.sec > LONGEST_DURATION then None else Some(x)
  }

  /** A line is valid if and only if it can be scanned, does not end before it starts, and spans at most 366 days. */
  lemma ValidLines(c: LineCodec, line: string)
    ensures ParseLine(c, line).Some?
            <==> && c.scan(line).Some?
                 && var x := c.scan(line).value;
                    && (x.t1.sec < x.t2.sec || (x.t1.sec == x.t2.sec && x.t1.nsec <= x.t2.nsec))
                    && x.t2.sec - x.t1.sec <= 31622400
    ensures ParseLine(c, line).Some? ==> ParseLine(c, line) == c.scan(line)
  {}

  /** `band_to_sps`: samples per second of a channel, from its first letter. */
  function SamplesPerSecond(cha: string): (sps: real)
    ensures sps > 0.0
  {
    if cha == "" then 1.0
    else
      var band := cha[0];
      if band == 'F' || band == 'G' then 1000.0
      else if band == 'D' then 500.0
      else if band == 'C' then 250.0
      else if band == 'E' || band == 'H' then 100.0
      else if band == 'S' || band == 'B' then 40.0
      else if band == 'M' then 5.0
      else if band == 'V' then 0.1
      else if band == 'U' then 0.01
      else if band == 'R' then 0.0003
      else if band == 'P' || band == 'T' then 0.001
      else if band == 'Q' then 0.05
      else 1.0
  }

  /** `ceil`. */
  function Ceil(x: real): (n: int)
    ensures x <= n as real < x + 1.0
  {
    if x.Floor as real == x then x.Floor else x.Floor + 1
  }

  /** `breq_fast_line_size` for a range of whole seconds: the bytes of its samples, estimated. */
  function RangeSize(sps: real, seconds: nat): nat
    requires sps > 0.0
  {
    RangeIsPositive(sps, seconds);
    Ceil(sps * seconds as real) * SIZE_OF_FLOAT
  }

  lemma RangeIsPositive(sps: real, seconds: nat)
    requires sps > 0.0
    ensures Ceil(sps * seconds as real) >= 0
  {
    assert sps * seconds as real >= 0.0;
  }

  function LineSize(x: Line): nat
    requires x.t1.sec <= x.t2.sec
  {
    RangeSize(SamplesPerSecond(x.cha), x.t2.sec - x.t1.sec)
  }

  /** The least number of times `b` goes into at least `a`. */
  function Times(a: nat, b: nat): nat
    requires b > 0
  {
    (a + b - 1) / b
  }

  /** Bytes for some seconds of a channel, in whole numbers: four for every sample, and no sample less than the rate of
      the band asks for. */
  function Bytes(cha: string, seconds: nat): nat {
    if cha == "" then 4 * seconds
    else match cha[0]
      case 'F' => 4000 * seconds
      case 'G' => 4000 * seconds
      case 'D' => 2000 * seconds
      case 'C' => 1000 * seconds
      case 'E' => 400 * seconds
      case 'H' => 400 * seconds
      case 'S' => 160 * seconds
      case 'B' => 160 * seconds
      case 'M' => 20 * seconds
      case 'V' => 4 * Times(seconds, 10)
      case 'Q' => 4 * Times(seconds, 20)
      case 'U' => 4 * Times(seconds, 100)
      case 'P' => 4 * Times(seconds, 1000)
      case 'T' => 4 * Times(seconds, 1000)
      case 'R' => 4 * Times(3 * seconds, 10000)
      case _ => 4 * seconds
  }

  lemma CeilIs(x: real, n: int)
    requires x <= n as real < x + 1.0
    ensures Ceil(x) == n
  {}

  /** `seconds` times a rate of `a / b`, rounded up. */
  lemma CeilOfRate(sps: real, a: nat, b: nat, seconds: nat)
    requires b > 0 && sps * b as real == a as real
    ensures Ceil(sps * seconds as real) == Times(a * seconds, b)
  {
    var n := Times(a * seconds, b);
    var x := sps * seconds as real;
    assert n * b >= a * seconds > (n - 1) * b;
    ScaledOrder(x, n, a * seconds, b) by {
      assert x * b as real == (sps * b as real) * seconds as real;
    }
    CeilIs(x, n);
  }

  lemma ScaledOrder(x: real, n: int, m: int, b: nat)
    requires b > 0 && x * b as real == m as real && n * b >= m > (n - 1) * b
    ensures x <= n as real < x + 1.0
  {
    var y := b as real;
    ProductAsReal(n, b);
    ProductAsReal(n - 1, b);
    ProductOrder(x, n as real, y);
    if n as real >= x + 1.0 {
      ScaleUp(x, (n - 1) as real, y);
      assert false;
    }
  }

  lemma ProductAsReal(a: int, b: int)
    ensures (a * b) as real == a as real * b as real
  {}

  lemma ScaleUp(x: real, z: real, y: real)
    requires y > 0.0 && x <= z
    ensures x * y <= z * y
  {}

  lemma ProductOrder(x: real, z: real, y: real)
    requires y > 0.0 && x * y <= z * y
    ensures x <= z
  {}

  lemma TimesOne(a: nat)
    ensures Times(a, 1) == a
  {}

  /** The estimated size of a line, band by band. */
  lemma LineSizeIs(x: Line)
    requires x.t1.sec <= x.t2.sec
    ensures LineSize(x) == Bytes(x.cha, x.t2.sec - x.t1.sec)
  {
    hide RangeSize, Times, SamplesPerSecond, Bytes, RateOf;
    var n := x.t2.sec - x.t1.sec;
    var r := RateOf(x.cha);
    RangeSizeIs(SamplesPerSecond(x.cha), r.0, r.1, n);
    BytesOfRate(x.cha, n);
  }

  /** The rate as a fraction. */
  function RateOf(cha: string): (r: (nat, nat))
    ensures r.1 > 0 && SamplesPerSecond(cha) * r.1 as real == r.0 as real
  {
    var band := if cha == "" then ' ' else cha[0];
    if band == 'V' then (1, 10)
    else if band == 'Q' then (1, 20)
    else if band == 'U' then (1, 100)
    else if band == 'P' || band == 'T' then (1, 1000)
    else if band == 'R' then (3, 10000)
    else (SamplesPerSecond(cha).Floor, 1)
  }

  lemma RangeSizeIs(sps: real, a: nat, b: nat, seconds: nat)
    requires sps > 0.0 && b > 0 && sps * b as real == a as real
    ensures RangeSize(sps, seconds) == 4 * Times(a * seconds, b)
  {
    hide Times, Ceil;
    CeilOfRate(sps, a, b, seconds);
  }

  lemma BytesOfRate(cha: string, n: nat)
    ensures var (a, b) := RateOf(cha); Bytes(cha, n) == 4 * Times(a * n, b)
  {
    hide Times;
    var (a, b) := RateOf(cha);
    TimesOne(a * n);
  }

  // ----- Dictionaries -----

  /** `keys` lists every key once, in whatever order. */
  ghost predicate KeyList(keys: seq<string>, m: map<string, string>) {
    multiset(keys) == multiset(m.Keys)
  }

  lemma KeysListed(keys: seq<string>, m: map<string, string>)
    requires KeyList(keys, m)
    ensures forall k :: k in keys <==> k in m
  {
    forall k
      ensures k in keys <==> k in m
    {
      assert k in keys <==> k in multiset(keys);
      assert k in m <==> k in multiset(m.Keys);
    }
  }

  /** `dict_keys`, in some order. */
  method ListKeys(m: map<string, string>) returns (keys: seq<string>)
    ensures KeyList(keys, m)
  {
    keys := [];
    var rest := m.Keys;
    while rest != {}
      invariant multiset(keys) + multiset(rest) == multiset(m.Keys)
      decreases |rest|
    {
      var k :| k in rest;
      keys, rest := keys + [k], rest - {k};
    }
  }

  /** Keys put one after the other. */
  function PutAll(m: map<string, string>, keys: seq<string>, source: map<string, string>): map<string, string>
    requires forall k :: k in keys ==> k in source
    decreases |keys|
  {
    if keys == [] then m else PutAll(m[keys[0] := source[keys[0]]], keys[1..], source)
  }

  /** In any order, putting all keys joins the maps. */
  lemma {:induction false} PutAllJoins(m: map<string, string>, keys: seq<string>, source: map<string, string>)
    requires forall k :: k in keys ==> k in source
    requires forall k :: k in source ==> k in keys || (k in m && m[k] == source[k])
    ensures PutAll(m, keys, source) == m + source
    decreases |keys|
  {
    if keys != [] {
      PutAllJoins(m[keys[0] := source[keys[0]]], keys[1..], source);
    }
  }

  lemma PutAllCompletes(m: map<string, string>, keys: seq<string>, source: map<string, string>)
    requires forall k :: k in keys ==> k in source
    requires forall k :: k in m ==> k in source && m[k] == source[k]
    requires forall k :: k in source ==> k in m || k in keys
    ensures PutAll(m, keys, source) == source
  {
    PutAllJoins(m, keys, source);
    assert m + source == source;
  }

  // ----- Requests -----

  /** The value of a request: whether it is commented out, its URLs, its lines. */
  datatype Request = Request(comment: bool, urls: map<string, string>, lines: seq<string>)

  class BreqFast {
    var comment: bool
    var urls: map<string, string>
    var lines: seq<string>

    constructor ()
      ensures Value() == Request(false, map[], [])
    {
      comment, urls, lines := false, map[], [];
    }

    ghost function Value(): Request
      reads this
    {
      Request(comment, urls, lines)
    }

    /** `breq_fast_copy_urls`: the source's URLs are added, and replace those of the same key, in whatever order its
        dictionary lists them. */
    method CopyUrls(src: BreqFast)
      modifies this`urls
      ensures src.urls == old(src.urls) && comment == old(comment) && lines == old(lines)
      ensures forall k :: k in urls <==> k in old(urls) || k in old(src.urls)
      ensures forall k :: k in urls ==> urls[k] == if k in old(src.urls) then old(src.urls[k]) else old(urls[k])
    {
      ghost var source := src.urls;
      var keys := ListKeys(src.urls);
      KeysListed(keys, source);
      PutAllJoins(urls, keys, source);
      assert keys[0..] == keys;
      for j := 0 to |keys|
        invariant src.urls == source
        invariant PutAll(urls, keys[j..], source) == old(urls) + source
      {
        assert keys[j..][0] == keys[j] && keys[j..][1..] == keys[j + 1..];
        urls := urls[keys[j] := src.urls[keys[j]]];
      }
    }
  }

  /** Search parameters and requests. */
  class DataRequest {
    var pars: map<string, string>
    var reqs: seq<BreqFast>

    constructor ()
      ensures pars == map[] && reqs == []
    {
      pars, reqs := map[], [];
    }
  }

  ghost function Values(reqs: seq<BreqFast>): (vs: seq<Request>)
    reads reqs
    ensures |vs| == |reqs| && forall i :: 0 <= i < |reqs| ==> vs[i] == reqs[i].Value()
  {
    seq(|reqs|, i requires 0 <= i < |reqs| reads reqs => reqs[i].Value())
  }

  /** A request line that is parsed into and stepped through in place. */
  class BreqFastLine {
    var net: string
    var sta: string
    var loc: string
    var cha: string
    var t1: Time
    var t2: Time

    constructor ()
    {
      net, sta, loc, cha, t1, t2 := "", "", "", "", Time(0, 0), Time(0, 0);
    }

    function Value(): Line
      reads this
    {
      Line(net, sta, loc, cha, t1, t2)
    }

    /** `breq_fast_line_parse`: on failure the fields are left in some state. */
    method Parse(c: LineCodec, line: string) returns (ok: bool)
      modifies this
      ensures ok <==> ParseLine(c, line).Some?
      ensures ok ==> Value() == ParseLine(c, line).value
    {
      var scanned := c.scan(line);
      if scanned.None? {
        net, sta, loc, cha, t1, t2 := *, *, *, *, *, *;
        return false;
      }
      var x := scanned.value;
      net, sta, loc, cha, t1, t2 := x.net, x.sta, x.loc, x.cha, x.t1, x.t2;
      if After(t1, t2) {
        return false;
      }
      var sec := t2.sec - t1.sec;
      return sec <= LONGEST_DURATION;
    }
  }
}
