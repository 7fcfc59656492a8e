/** What the writer of data requests in fern/datareq.c writes, character by character. */
module WrittenText {
  import opened DataRequests
  import opened RequestText

  // ----- Decimal numbers -----

  /** The number that decimal digits spell. */
  function Read(s: string): nat
    requires forall i :: 0 <= i < |s| ==> '0' <= s[i] <= '9'
  {
    if s == "" then 0 else 10 * Read(s[..|s| - 1]) + (s[|s| - 1] as int - '0' as int)
  }

  /** A number is written in decimal digits that spell it, without leading zeros. */
  lemma {:induction false} DecimalIsRead(n: nat)
    ensures Read(Decimal(n)) == n && (n > 0 ==> Decimal(n)[0] != '0') && (n == 0 ==> Decimal(n) == "0")
  {
    if n >= 10 {
      DecimalIsRead(n / 10);
      var s := Decimal(n);
      assert s[..|s| - 1] == Decimal(n / 10);
    }
  }

  /** The header of a request: its number and how many there are. */
  lemma HeaderIs(i: nat, n: nat)
    ensures Header(i, n) == "## REQUEST " + Decimal(i) + "/ " + Decimal(n)
    ensures Read(Decimal(i)) == i && Read(Decimal(n)) == n
  {
    DecimalIsRead(i);
    DecimalIsRead(n);
  }

  lemma {:induction false} FirstSlash(a: string, b: string, x: string, y: string)
    requires '/' !in a && '/' !in b && a + "/" + x == b + "/" + y
    ensures a == b && x == y
  {
    if a == "" || b == "" {
      assert (a + "/" + x)[0] == (b + "/" + y)[0];
      assert a == b == "";
      assert (a + "/" + x)[1..] == x && (b + "/" + y)[1..] == y;
    } else {
      assert (a + "/" + x)[0] == (b + "/" + y)[0];
      assert (a + "/" + x)[1..] == a[1..] + "/" + x && (b + "/" + y)[1..] == b[1..] + "/" + y;
      FirstSlash(a[1..], b[1..], x, y);
    }
  }

  lemma HeaderParts(i: nat, n: nat)
    ensures |Header(i, n)| >= 11 && Header(i, n)[11..] == Decimal(i) + "/" + (" " + Decimal(n))
  {}

  /** No two headers are the same unless both numbers are. */
  lemma HeadersDiffer(i: nat, n: nat, j: nat, m: nat)
    requires Header(i, n) == Header(j, m)
    ensures i == j && n == m
  {
    hide Header;
    HeaderParts(i, n);
    HeaderParts(j, m);
    FirstSlash(Decimal(i), Decimal(j), " " + Decimal(n), " " + Decimal(m));
    assert (" " + Decimal(n))[1..] == Decimal(n) && (" " + Decimal(m))[1..] == Decimal(m);
    DecimalIsRead(i);
    DecimalIsRead(j);
    DecimalIsRead(n);
    DecimalIsRead(m);
  }

  // ----- Requests -----

  /** The requests of a document stand one after the other, each after its header. */
  lemma {:induction false} RequestStands(lists: seq<seq<string>>, reqs: seq<Request>, k: nat, n: nat)
    requires Writable(lists, reqs) && 0 < k <= n <= |reqs|
    ensures var before, all := RequestLines(lists, reqs, k - 1), RequestLines(lists, reqs, n);
            var body := BodyLines(lists[k - 1], reqs[k - 1]);
            && |before| + 1 + |body| <= |all| && all[|before|] == Header(k, |reqs|)
            && all[|before| + 1..|before| + 1 + |body|] == body
    decreases n
  {
    hide Header, BodyLines;
    if k < n {
      RequestStands(lists, reqs, k, n - 1);
      var prev := RequestLines(lists, reqs, n - 1);
      var p, q := |RequestLines(lists, reqs, k - 1)| + 1, |BodyLines(lists[k - 1], reqs[k - 1])|;
      assert RequestLines(lists, reqs, n)[..|prev|] == prev;
      assert prev[p..p + q] == RequestLines(lists, reqs, n)[p..p + q];
    }
  }

  /** The lines of a request that is not commented out: data center, other URLs as keys and values, lines. */
  lemma BodyIs(keys: seq<string>, r: Request)
    requires DATACENTER in r.urls && (forall k :: k in keys ==> k in r.urls) && !r.comment
    ensures DATACENTER == "DATACENTER"
    ensures var body, urls := BodyLines(keys, r), Others(keys);
            && |body| == 1 + |urls| + |r.lines| + 1
            && body[0] == "DATACENTER=" + r.urls["DATACENTER"]
            && (forall i :: 0 <= i < |urls| ==> body[1 + i] == urls[i] + "=" + r.urls[urls[i]])
            && (forall i :: 0 <= i < |r.lines| ==> body[1 + |urls| + i] == r.lines[i])
            && body[|body| - 1] == ""
  {
    hide EntryLines, MarkedLines, Others;
    EntriesAre("", Others(keys), r.urls);
    MarkedAre("", r.lines);
  }

  lemma {:induction false} EntriesAre(mark: string, keys: seq<string>, m: map<string, string>)
    requires forall k :: k in keys ==> k in m
    ensures forall i :: 0 <= i < |keys| ==> EntryLines(mark, keys, m)[i] == mark + (keys[i] + "=" + m[keys[i]])
    decreases |keys|
  {
    if keys != [] {
      EntriesAre(mark, keys[1..], m);
      assert mark + keys[0] + "=" + m[keys[0]] == mark + (keys[0] + "=" + m[keys[0]]);
    }
  }

  lemma {:induction false} MarkedAre(mark: string, lines: seq<string>)
    ensures forall i :: 0 <= i < |lines| ==> MarkedLines(mark, lines)[i] == mark + lines[i]
    decreases |lines|
  {
    if lines != [] {
      MarkedAre(mark, lines[1..]);
    }
  }

  /** A request that is commented out: a number sign and a space before every line but the blank one. */
  lemma CommentedBodyIs(keys: seq<string>, r: Request)
    requires DATACENTER in r.urls && (forall k :: k in keys ==> k in r.urls) && r.comment
    ensures var body, bare := BodyLines(keys, r), BodyLines(keys, r.(comment := false));
            && |body| == |bare| && body[|body| - 1] == ""
            && forall i :: 0 <= i < |body| - 1 ==> body[i] == "# " + bare[i]
  {
    hide EntryLines, MarkedLines, Others;
    EntriesAre("", Others(keys), r.urls);
    EntriesAre("# ", Others(keys), r.urls);
    MarkedAre("", r.lines);
    MarkedAre("# ", r.lines);
  }

  /** The parameters: a title, keys and values, a blank line. */
  lemma ParametersAre(keys: seq<string>, pars: map<string, string>)
    requires forall k :: k in keys ==> k in pars
    ensures var lines := ParameterLines(keys, pars);
            && |lines| == |keys| + 2 && lines[0] == "## REQUEST PARAMETERS " && lines[|lines| - 1] == ""
            && forall i :: 0 <= i < |keys| ==> lines[1 + i] == keys[i] + "=" + pars[keys[i]]
  {
    EntriesAre("", keys, pars);
    hide EntryLines;
  }
}
