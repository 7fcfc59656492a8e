/** Writing data requests to a file and parsing the text gives the same data requests. */
module RequestRoundTrip {
  import opened Options
  import opened DataRequests
  import opened RequestText

  // ----- Which requests -----

  /** No white space at either end. */
  predicate Clean(s: string) {
    s != "" ==> !IsSpace(s[0]) && !IsSpace(s[|s| - 1])
  }

  predicate GoodEntry(k: string, v: string) {
    && Clean(k) && '\n' !in k && '=' !in k && (k != "" ==> k[0] != '#')
    && Clean(v) && '\n' !in v
  }

  predicate GoodParameter(k: string, v: string) {
    GoodEntry(k, v) && !StartsWith(k + "=" + v, DATACENTER)
  }

  predicate GoodUrl(k: string, v: string) {
    GoodEntry(k, v) && (k == DATACENTER || Contains(k + "=" + v, "SERVICE"))
  }

  /** A line that the program would keep: valid, on one line, and not taken for a comment. */
  predicate GoodLine(c: LineCodec, comment: bool, line: string) {
    && line != "" && line[0] != '#' && (comment ==> line[0] != ' ')
    && !IsSpace(line[|line| - 1]) && '\n' !in line
    && ParseLine(c, line).Some?
  }

  predicate SoundRequest(c: LineCodec, r: Request) {
    && DATACENTER in r.urls && (forall k :: k in r.urls ==> GoodUrl(k, r.urls[k]))
    && (forall i :: 0 <= i < |r.lines| ==> GoodLine(c, r.comment, r.lines[i]))
  }

  /** There is a first line, and it is not taken for one more URL. */
  predicate FirstLineIsKept(r: Request) {
    r.lines != [] && !Contains(r.lines[0], "SERVICE")
  }

  predicate GoodRequest(c: LineCodec, r: Request) {
    SoundRequest(c, r) && FirstLineIsKept(r)
  }

  // ----- One line -----

  lemma KeepsEnd(s: string)
    requires s == "" || !IsSpace(s[|s| - 1])
    ensures RStrip(s) == s
  {}

  lemma CleanStays(s: string)
    requires Clean(s)
    ensures Strip(s) == s
  {
    KeepsEnd(s);
  }

  lemma {:induction false} FirstIndex(a: string, ch: char, b: string)
    requires ch !in a
    ensures IndexOf(a + [ch] + b, ch) == Some(|a|)
  {
    var s := a + [ch] + b;
    if a != "" {
      assert s[1..] == a[1..] + [ch] + b;
      FirstIndex(a[1..], ch, b);
    }
  }

  lemma EntryIsRead(k: string, v: string)
    requires GoodEntry(k, v)
    ensures var s := k + "=" + v;
            RStrip(s) == s && ParseKeyValue(s) == Some((k, v)) && s != "" && s[0] != '#' && s[0] != ' '
  {
    var s := k + "=" + v;
    assert s == k + ['='] + v;
    FirstIndex(k, '=', v);
    assert s[..|k|] == k && s[|k| + 1..] == v;
    CleanStays(k);
    CleanStays(v);
    KeepsEnd(s) by {
      assert v != "" ==> s[|s| - 1] == v[|v| - 1];
    }
  }

  lemma MarkIsRemoved(comment: bool, s: string)
    requires s == "" || (s[0] != '#' && (comment ==> s[0] != ' '))
    ensures Uncommented(Mark(comment) + s) == Some((comment, s))
  {
    var line := Mark(comment) + s;
    if comment {
      assert line[1..] == [' '] + s;
      assert ([' '] + s)[1..] == s;
      assert DropSpaces(s) == s;
    } else {
      assert line == s;
    }
  }

  lemma HeadersAreSkipped(c: LineCodec, p: Progress, line: string)
    requires StartsWith(line, "##")
    ensures ParseStep(c, p, line) == p
  {
    assert line[0] == line[..2][0] && line[1] == line[..2][1];
    assert DropSpaces(line[1..]) == line[1..];
  }

  lemma ParameterStep(c: LineCodec, p: Progress, k: string, v: string)
    requires p.state == Parameters && GoodParameter(k, v)
    ensures ParseStep(c, p, "" + k + "=" + v) == p.(pars := p.pars[k := v])
  {
    hide ParseKeyValue, RStrip, StartsWith, Uncommented, GoodEntry;
    var s := k + "=" + v;
    EntryIsRead(k, v);
    MarkIsRemoved(false, s);
    assert "" + k + "=" + v == s == Mark(false) + s;
  }

  lemma DataCenterStarts(v: string)
    ensures StartsWith(DATACENTER + "=" + v, "DATACENTER")
  {}

  lemma DataCenterStep(c: LineCodec, p: Progress, comment: bool, v: string)
    requires p.state == Parameters && GoodEntry(DATACENTER, v)
    ensures ParseStep(c, p, Mark(comment) + DATACENTER + "=" + v)
            == Progress(Services, p.pars, p.reqs + [Request(comment, map[DATACENTER := v], [])])
  {
    hide ParseKeyValue, RStrip, StartsWith, Uncommented, GoodEntry, Contains, DATACENTER;
    var s := DATACENTER + "=" + v;
    EntryIsRead(DATACENTER, v);
    MarkIsRemoved(comment, s);
    assert Mark(comment) + DATACENTER + "=" + v == Mark(comment) + s;
    DataCenterStarts(v);
  }

  lemma UrlStep(c: LineCodec, p: Progress, comment: bool, k: string, v: string)
    requires p.state == Services && p.reqs != [] && GoodUrl(k, v) && k != DATACENTER
    ensures var r := p.reqs[|p.reqs| - 1];
            ParseStep(c, p, Mark(comment) + k + "=" + v) == p.(reqs := SetLast(p.reqs, r.(urls := r.urls[k := v])))
  {
    hide ParseKeyValue, RStrip, StartsWith, Uncommented, GoodEntry, Contains;
    var s := k + "=" + v;
    EntryIsRead(k, v);
    MarkIsRemoved(comment, s);
    assert Mark(comment) + k + "=" + v == Mark(comment) + s;
  }

  lemma LineStep(c: LineCodec, p: Progress, comment: bool, line: string)
    requires p.state != Parameters && p.reqs != [] && GoodLine(c, comment, line)
    requires p.state == Services ==> !Contains(line, "SERVICE")
    ensures var r := p.reqs[|p.reqs| - 1];
            ParseStep(c, p, Mark(comment) + line)
            == Progress(Requests, p.pars, SetLast(p.reqs, r.(lines := r.lines + [line])))
  {
    hide RStrip, StartsWith, Uncommented, Contains, ParseLine;
    KeepsEnd(line);
    MarkIsRemoved(comment, line);
  }

  lemma BlankStep(c: LineCodec, p: Progress)
    requires p.state == Parameters || p.state == Requests
    ensures ParseStep(c, p, "") == p.(state := Parameters)
  {
    assert !StartsWith("", "DATACENTER");
  }

  // ----- Runs of lines -----

  lemma {:induction false} ParseLinesConcat(c: LineCodec, p: Progress, a: seq<string>, b: seq<string>)
    ensures ParseLines(c, p, a + b) == ParseLines(c, ParseLines(c, p, a), b)
    decreases |a|
  {
    hide ParseStep;
    if a == [] {
      assert a + b == b;
    } else {
      assert (a + b)[1..] == a[1..] + b;
      ParseLinesConcat(c, ParseStep(c, p, a[0]), a[1..], b);
    }
  }

  lemma ParseOne(c: LineCodec, p: Progress, line: string)
    ensures ParseLines(c, p, [line]) == ParseStep(c, p, line)
  {
    hide ParseStep;
    assert [line][1..] == [];
  }

  lemma {:induction false} ParametersAreRead(c: LineCodec, p: Progress, keys: seq<string>, pars: map<string, string>)
    requires p.state == Parameters && forall k :: k in keys ==> k in pars && GoodParameter(k, pars[k])
    ensures ParseLines(c, p, EntryLines("", keys, pars)) == p.(pars := PutAll(p.pars, keys, pars))
    decreases |keys|
  {
    hide ParseStep, GoodParameter;
    if keys != [] {
      ParameterStep(c, p, keys[0], pars[keys[0]]);
      ParametersAreRead(c, p.(pars := p.pars[keys[0] := pars[keys[0]]]), keys[1..], pars);
    }
  }

  lemma {:induction false} UrlsAreRead(c: LineCodec, p: Progress, r: Request, comment: bool, keys: seq<string>,
                                       urls: map<string, string>)
    requires p.state == Services && p.reqs != [] && r == p.reqs[|p.reqs| - 1]
    requires forall k :: k in keys ==> k in urls && k != DATACENTER && GoodUrl(k, urls[k])
    ensures ParseLines(c, p, EntryLines(Mark(comment), keys, urls))
            == p.(reqs := SetLast(p.reqs, r.(urls := PutAll(r.urls, keys, urls))))
    decreases |keys|
  {
    hide ParseStep, GoodUrl;
    if keys != [] {
      assert forall k :: k in keys[1..] ==> k in keys;
      UrlStep(c, p, comment, keys[0], urls[keys[0]]);
      var r' := r.(urls := r.urls[keys[0] := urls[keys[0]]]);
      UrlsAreRead(c, p.(reqs := SetLast(p.reqs, r')), r', comment, keys[1..], urls);
    }
  }

  lemma {:induction false} LinesAreRead(c: LineCodec, p: Progress, r: Request, comment: bool, lines: seq<string>)
    requires p.state != Parameters && p.reqs != [] && r == p.reqs[|p.reqs| - 1]
    requires forall i :: 0 <= i < |lines| ==> GoodLine(c, comment, lines[i])
    requires p.state == Services ==> lines != [] && !Contains(lines[0], "SERVICE")
    ensures ParseLines(c, p, MarkedLines(Mark(comment), lines))
            == Progress(Requests, p.pars, SetLast(p.reqs, r.(lines := r.lines + lines)))
    decreases |lines|
  {
    hide ParseStep, GoodLine, Contains;
    if lines == [] {
      assert r.lines + lines == r.lines;
    } else {
      LineStep(c, p, comment, lines[0]);
      var r' := r.(lines := r.lines + [lines[0]]);
      LinesAreRead(c, Progress(Requests, p.pars, SetLast(p.reqs, r')), r', comment, lines[1..]);
      assert r.lines + [lines[0]] + lines[1..] == r.lines + lines;
    }
  }

  /** The data center and then the other URLs: a request that has no lines yet. */
  lemma ServicesAreRead(c: LineCodec, p: Progress, keys: seq<string>, r: Request)
    requires p.state == Parameters && SoundRequest(c, r) && forall k :: k in keys <==> k in r.urls
    ensures ParseLines(c, p, [Mark(r.comment) + DATACENTER + "=" + r.urls[DATACENTER]]
                             + EntryLines(Mark(r.comment), Others(keys), r.urls))
            == Progress(Services, p.pars, p.reqs + [r.(lines := [])])
  {
    hide ParseStep, ParseLines, EntryLines, GoodLine, Contains;
    var mark := Mark(r.comment);
    var first, entries := mark + DATACENTER + "=" + r.urls[DATACENTER], EntryLines(mark, Others(keys), r.urls);
    var begun := Request(r.comment, map[DATACENTER := r.urls[DATACENTER]], []);
    ParseLinesConcat(c, p, [first], entries);
    ParseOne(c, p, first);
    DataCenterStep(c, p, r.comment, r.urls[DATACENTER]);
    UrlsAreRead(c, Progress(Services, p.pars, p.reqs + [begun]), begun, r.comment, Others(keys), r.urls);
    PutAllCompletes(begun.urls, Others(keys), r.urls);
  }

  /** A request is read back, and the parser is ready for the next one. */
  lemma BodyIsRead(c: LineCodec, p: Progress, keys: seq<string>, r: Request)
    requires p.state == Parameters && GoodRequest(c, r) && forall k :: k in keys <==> k in r.urls
    ensures ParseLines(c, p, BodyLines(keys, r)) == p.(reqs := p.reqs + [r])
  {
    hide ParseStep, ParseLines, EntryLines, MarkedLines, GoodLine, GoodUrl, Contains;
    var mark := Mark(r.comment);
    var head := [mark + DATACENTER + "=" + r.urls[DATACENTER]] + EntryLines(mark, Others(keys), r.urls);
    var lines := MarkedLines(mark, r.lines);
    var begun := r.(lines := []);
    var p2, p3 := Progress(Services, p.pars, p.reqs + [begun]), Progress(Requests, p.pars, p.reqs + [r]);
    ServicesAreRead(c, p, keys, r);
    LinesAreRead(c, p2, begun, r.comment, r.lines);
    assert [] + r.lines == r.lines;
    assert SetLast(p.reqs + [begun], begun.(lines := begun.lines + r.lines)) == p.reqs + [r];
    ParseLinesConcat(c, p, head, lines);
    ParseLinesConcat(c, p, head + lines, [""]);
    ParseOne(c, p3, "");
    BlankStep(c, p3);
  }

  lemma ParametersBlockIsRead(c: LineCodec, keys: seq<string>, pars: map<string, string>)
    requires forall k :: k in keys <==> k in pars
    requires forall k :: k in pars ==> GoodParameter(k, pars[k])
    ensures ParseLines(c, START, ParameterLines(keys, pars)) == Progress(Parameters, pars, [])
  {
    hide ParseStep, ParseLines, EntryLines, GoodParameter;
    var title := "## REQUEST PARAMETERS ";
    var entries := EntryLines("", keys, pars);
    var done := Progress(Parameters, pars, []);
    ParseOne(c, START, title);
    HeadersAreSkipped(c, START, title);
    ParametersAreRead(c, START, keys, pars);
    PutAllCompletes(map[], keys, pars);
    ParseLinesConcat(c, START, [title], entries);
    ParseLinesConcat(c, START, [title] + entries, [""]);
    ParseOne(c, done, "");
    BlankStep(c, done);
  }

  // ----- The whole text -----

  ghost predicate WellFormed(c: LineCodec, pars: map<string, string>, reqs: seq<Request>) {
    && (forall k :: k in pars ==> GoodParameter(k, pars[k]))
    && reqs != [] && (forall i :: 0 <= i < |reqs| ==> SoundRequest(c, reqs[i]))
  }

  /** One more request: its header is skipped, its body read. */
  lemma OneMoreRequest(c: LineCodec, lists: seq<seq<string>>, p: Progress, reqs: seq<Request>, k: nat)
    requires KeyLists(lists, reqs) && 0 < k <= |reqs|
    requires Writable(lists, reqs)
    ensures var r := reqs[k - 1];
            && (forall key :: key in lists[k - 1] <==> key in r.urls)
            && ParseLines(c, p, RequestLines(lists, reqs, k))
               == ParseLines(c, ParseLines(c, p, RequestLines(lists, reqs, k - 1)), BodyLines(lists[k - 1], r))
  {
    hide ParseStep, ParseLines, BodyLines, Header;
    var before, header := RequestLines(lists, reqs, k - 1), Header(k, |reqs|);
    var r := reqs[k - 1];
    var p1 := ParseLines(c, p, before);
    ParseLinesConcat(c, p, before, [header]);
    ParseLinesConcat(c, p, before + [header], BodyLines(lists[k - 1], r));
    ParseOne(c, p1, header);
    HeaderIsHeader(k, |reqs|);
    HeadersAreSkipped(c, p1, header);
    KeysListed(lists[k - 1], r.urls);
  }

  lemma {:induction false} RequestsAreRead(c: LineCodec, lists: seq<seq<string>>, p: Progress,
                                           reqs: seq<Request>, k: nat)
    requires KeyLists(lists, reqs) && p.state == Parameters && p.reqs == [] && k <= |reqs|
    requires forall i :: 0 <= i < k ==> GoodRequest(c, reqs[i])
    requires Writable(lists, reqs)
    ensures ParseLines(c, p, RequestLines(lists, reqs, k)) == p.(reqs := reqs[..k])
  {
    hide ParseLines, BodyLines, GoodRequest, KeyLists;
    if k == 0 {
      ParseNone(c, p);
    } else {
      OneMoreRequest(c, lists, p, reqs, k);
      hide RequestLines;
      RequestsAreRead(c, lists, p, reqs, k - 1);
      BodyIsRead(c, p.(reqs := reqs[..k - 1]), lists[k - 1], reqs[k - 1]);
      assert reqs[..k] == reqs[..k - 1] + [reqs[k - 1]];
    }
  }

  lemma ParseNone(c: LineCodec, p: Progress)
    ensures ParseLines(c, p, []) == p
  {}

  lemma HeaderIsHeader(i: nat, n: nat)
    ensures StartsWith(Header(i, n), "##") && '\n' !in Header(i, n)
  {}

  /** No line has a newline inside. */
  predicate OneLineEach(lines: seq<string>) {
    forall i :: 0 <= i < |lines| ==> '\n' !in lines[i]
  }

  lemma {:induction false} SplitTerminated(lines: seq<string>)
    requires OneLineEach(lines)
    ensures Split(Terminated(lines)) == lines + [""]
    decreases |lines|
  {
    if lines != [] {
      var line, rest := lines[0], lines[1..];
      assert lines == [line] + rest;
      TerminatedConcat([line], rest);
      TerminatedOne(line);
      hide Terminated;
      var text := Terminated(lines);
      assert text == line + ['\n'] + Terminated(rest);
      FirstIndex(line, '\n', Terminated(rest));
      assert text[..|line|] == line && text[|line| + 1..] == Terminated(rest);
      SplitTerminated(rest);
    }
  }

  lemma {:induction false} EntriesAreLines(comment: bool, keys: seq<string>, m: map<string, string>)
    requires forall k :: k in keys ==> k in m && GoodEntry(k, m[k])
    ensures OneLineEach(EntryLines(Mark(comment), keys, m))
    decreases |keys|
  {
    if keys != [] {
      EntriesAreLines(comment, keys[1..], m);
    }
  }

  lemma {:induction false} MarkedAreLines(c: LineCodec, comment: bool, lines: seq<string>)
    requires forall i :: 0 <= i < |lines| ==> GoodLine(c, comment, lines[i])
    ensures OneLineEach(MarkedLines(Mark(comment), lines))
    decreases |lines|
  {
    if lines != [] {
      MarkedAreLines(c, comment, lines[1..]);
    }
  }

  lemma BodiesAreLines(c: LineCodec, keys: seq<string>, r: Request)
    requires SoundRequest(c, r) && forall k :: k in keys <==> k in r.urls
    ensures OneLineEach(BodyLines(keys, r))
  {
    hide Contains, EntryLines, MarkedLines;
    EntriesAreLines(r.comment, Others(keys), r.urls);
    MarkedAreLines(c, r.comment, r.lines);
    assert GoodEntry(DATACENTER, r.urls[DATACENTER]);
  }

  lemma {:induction false} RequestsAreLines(c: LineCodec, lists: seq<seq<string>>,
                                            reqs: seq<Request>, k: nat)
    requires KeyLists(lists, reqs) && k <= |reqs| && forall i :: 0 <= i < |reqs| ==> SoundRequest(c, reqs[i])
    requires Writable(lists, reqs)
    ensures OneLineEach(RequestLines(lists, reqs, k))
  {
    hide BodyLines, Header, SoundRequest;
    if k > 0 {
      RequestsAreLines(c, lists, reqs, k - 1);
      HeaderIsHeader(k, |reqs|);
      KeysListed(lists[k - 1], reqs[k - 1].urls);
      BodiesAreLines(c, lists[k - 1], reqs[k - 1]);
    }
  }

  /** What the writer needs: dictionaries list their own keys, and every request has its data center. */
  lemma KeysAreWritable(c: LineCodec, listed: seq<string>, pars: map<string, string>, lists: seq<seq<string>>,
                        reqs: seq<Request>)
    requires KeyList(listed, pars) && KeyLists(lists, reqs) && WellFormed(c, pars, reqs)
    ensures (forall key :: key in listed ==> key in pars) && Writable(lists, reqs)
  {
    hide GoodUrl, GoodLine, GoodParameter, Contains, KeyList;
    KeysListed(listed, pars);
    forall i | 0 <= i < |reqs|
      ensures DATACENTER in reqs[i].urls && forall key :: key in lists[i] ==> key in reqs[i].urls
    {
      assert SoundRequest(c, reqs[i]);
      KeysListed(lists[i], reqs[i].urls);
    }
  }

  lemma HeadIsLines(keys: seq<string>, pars: map<string, string>)
    requires forall k :: k in keys ==> k in pars && GoodParameter(k, pars[k])
    ensures OneLineEach(ParameterLines(keys, pars))
  {
    hide EntryLines;
    EntriesAreLines(false, keys, pars);
  }

  // ----- When the first line is not kept -----

  /** The line, once its comment mark is gone, does not end a request. */
  predicate Nonblank(line: string) {
    Uncommented(line).Some? ==> RStrip(Uncommented(line).value.1) != ""
  }

  /** What lines that are not blank leave alone: how many requests there are, and all but the last. */
  predicate Keeps(p: Progress, q: Progress, more: nat) {
    && p.reqs != [] && |q.reqs| == |p.reqs| && q.reqs[..|q.reqs| - 1] == p.reqs[..|p.reqs| - 1]
    && q.pars == p.pars && q.state != Parameters && (p.state == Requests ==> q.state == Requests)
    && |q.reqs[|q.reqs| - 1].lines| <= |p.reqs[|p.reqs| - 1].lines| + more
  }

  lemma StepKeeps(c: LineCodec, p: Progress, line: string)
    requires p.state != Parameters && p.reqs != [] && Nonblank(line)
    ensures Keeps(p, ParseStep(c, p, line), 1)
  {
    hide RStrip, Uncommented, ParseKeyValue, ParseLine, Contains, StartsWith;
  }

  lemma {:induction false} RunKeeps(c: LineCodec, p: Progress, lines: seq<string>)
    requires p.state != Parameters && p.reqs != [] && forall i :: 0 <= i < |lines| ==> Nonblank(lines[i])
    ensures Keeps(p, ParseLines(c, p, lines), |lines|)
    decreases |lines|
  {
    hide Nonblank, ParseStep;
    if lines != [] {
      StepKeeps(c, p, lines[0]);
      RunKeeps(c, ParseStep(c, p, lines[0]), lines[1..]);
    }
  }

  lemma EntryIsNonblank(comment: bool, k: string, v: string)
    requires GoodEntry(k, v)
    ensures Nonblank(Mark(comment) + k + "=" + v)
  {
    hide RStrip, Uncommented, ParseKeyValue, GoodEntry;
    EntryIsRead(k, v);
    MarkIsRemoved(comment, k + "=" + v);
    assert Mark(comment) + k + "=" + v == Mark(comment) + (k + "=" + v);
  }

  lemma {:induction false} EntriesAreNonblank(comment: bool, keys: seq<string>, m: map<string, string>)
    requires forall k :: k in keys ==> k in m && GoodEntry(k, m[k])
    ensures forall i :: 0 <= i < |keys| ==> Nonblank(EntryLines(Mark(comment), keys, m)[i])
    decreases |keys|
  {
    hide Nonblank, GoodEntry;
    if keys != [] {
      EntryIsNonblank(comment, keys[0], m[keys[0]]);
      EntriesAreNonblank(comment, keys[1..], m);
    }
  }

  lemma {:induction false} MarkedAreNonblank(c: LineCodec, comment: bool, lines: seq<string>)
    requires forall i :: 0 <= i < |lines| ==> GoodLine(c, comment, lines[i])
    ensures forall i :: 0 <= i < |lines| ==> Nonblank(MarkedLines(Mark(comment), lines)[i])
    decreases |lines|
  {
    hide Uncommented, RStrip, ParseLine;
    if lines != [] {
      KeepsEnd(lines[0]);
      MarkIsRemoved(comment, lines[0]);
      MarkedAreNonblank(c, comment, lines[1..]);
    }
  }

  /** A blank line ends a request, or is wasted on one that has no lines yet. */
  lemma BlankAfterServices(c: LineCodec, p: Progress)
    requires p.state != Parameters
    ensures ParseStep(c, p, "") == p.(state := if p.state == Services then Requests else Parameters)
  {
    assert !Contains("", "SERVICE");
    hide Contains, ParseKeyValue;
  }

  /** A request line that mentions SERVICE is lost if it comes first. */
  lemma ServiceLineIsLost(c: LineCodec, p: Progress, comment: bool, line: string)
    requires p.state == Services && p.reqs != [] && GoodLine(c, comment, line) && Contains(line, "SERVICE")
    ensures Keeps(p, ParseStep(c, p, Mark(comment) + line), 0)
  {
    hide RStrip, StartsWith, Uncommented, Contains, ParseLine, ParseKeyValue;
    MarkIsRemoved(comment, line);
  }

  lemma BadLinesAreNotRead(c: LineCodec, p: Progress, r: Request)
    requires p.state == Services && p.reqs != [] && p.reqs[|p.reqs| - 1].lines == []
    requires SoundRequest(c, r) && !FirstLineIsKept(r) && r.lines != []
    ensures Keeps(p, ParseLines(c, p, MarkedLines(Mark(r.comment), r.lines)), |r.lines| - 1)
  {
    hide ParseStep, Contains, GoodLine, Nonblank, GoodUrl;
    var line, rest := Mark(r.comment) + r.lines[0], MarkedLines(Mark(r.comment), r.lines[1..]);
    ServiceLineIsLost(c, p, r.comment, r.lines[0]);
    MarkedAreNonblank(c, r.comment, r.lines[1..]);
    RunKeeps(c, ParseStep(c, p, line), rest);
  }

  /** A request whose first line is not kept is not read back, unless it has no lines at all;
      and then the parser is not ready for another one. */
  lemma BadBodyIsNotRead(c: LineCodec, p: Progress, keys: seq<string>, r: Request)
    requires p.state == Parameters && SoundRequest(c, r) && !FirstLineIsKept(r)
            && forall k :: k in keys <==> k in r.urls
    ensures var q := ParseLines(c, p, BodyLines(keys, r));
            && |q.reqs| == |p.reqs| + 1 && q.reqs[..|p.reqs|] == p.reqs
            && q.pars == p.pars && q.state != Services && (q.reqs[|p.reqs|] == r <==> r.lines == [])
            && (r.lines == [] ==> q.state == Requests)
  {
    hide ParseStep, ParseLines, EntryLines, GoodLine, GoodUrl, Contains, FirstLineIsKept, MarkedLines;
    var mark := Mark(r.comment);
    var head := [mark + DATACENTER + "=" + r.urls[DATACENTER]] + EntryLines(mark, Others(keys), r.urls);
    var lines := MarkedLines(mark, r.lines);
    var p2 := Progress(Services, p.pars, p.reqs + [r.(lines := [])]);
    ServicesAreRead(c, p, keys, r);
    ParseLinesConcat(c, p, head, lines);
    ParseLinesConcat(c, p, head + lines, [""]);
    if r.lines == [] {
      ParseNone(c, p2);
      assert lines == [];
    } else {
      BadLinesAreNotRead(c, p2, r);
    }
    var p3 := ParseLines(c, p2, lines);
    ParseOne(c, p3, "");
    BlankAfterServices(c, p3);
    assert p2.reqs[..|p2.reqs| - 1] == p.reqs;
  }

  /** A parser that is not ready takes a whole request for lines of the one before. */
  lemma BodyIsSwallowed(c: LineCodec, p: Progress, keys: seq<string>, r: Request)
    requires p.state == Requests && p.reqs != [] && SoundRequest(c, r) && forall k :: k in keys <==> k in r.urls
    ensures var q := ParseLines(c, p, BodyLines(keys, r));
            |q.reqs| == |p.reqs| && q.state == Parameters
  {
    hide ParseStep, ParseLines, EntryLines, GoodLine, GoodEntry, Contains, MarkedLines, Nonblank;
    var mark := Mark(r.comment);
    var first, entries := mark + DATACENTER + "=" + r.urls[DATACENTER], EntryLines(mark, Others(keys), r.urls);
    var lines := MarkedLines(mark, r.lines);
    assert GoodUrl(DATACENTER, r.urls[DATACENTER]);
    EntryIsNonblank(r.comment, DATACENTER, r.urls[DATACENTER]);
    EntriesAreNonblank(r.comment, Others(keys), r.urls);
    MarkedAreNonblank(c, r.comment, r.lines);
    var all := [first] + entries + lines;
    RunKeeps(c, p, all);
    ParseLinesConcat(c, p, all, [""]);
    var p3 := ParseLines(c, p, all);
    ParseOne(c, p3, "");
    BlankAfterServices(c, p3);
  }

  /** The whole text is read back exactly if every request keeps its first line, except that the last one may have
      none. */
  predicate Readable(reqs: seq<Request>) {
    forall i :: 0 <= i < |reqs| ==> FirstLineIsKept(reqs[i]) || (i == |reqs| - 1 && reqs[i].lines == [])
  }

  /** How far off the parser is after `k` requests, of which the one at `i` is the first whose first line is not
      kept. */
  ghost predicate Astray(q: Progress, reqs: seq<Request>, i: nat, k: nat) {
    && i < k <= |reqs| && q.state != Services && q.reqs != []
    && (|| |q.reqs| < k
        || (|q.reqs| == k && q.reqs[i] != reqs[i])
        || (|q.reqs| == k == i + 1 && q.state == Requests && reqs[i].lines == []))
  }

  /** One more request, from any state between two of them. */
  lemma BodyFromAnywhere(c: LineCodec, p: Progress, keys: seq<string>, r: Request)
    requires p.state != Services && (p.state == Requests ==> p.reqs != [])
    requires SoundRequest(c, r) && forall k :: k in keys <==> k in r.urls
    ensures var q := ParseLines(c, p, BodyLines(keys, r));
            && q.state != Services
            && if p.state == Requests then |q.reqs| == |p.reqs|
               else |q.reqs| == |p.reqs| + 1 && q.reqs[..|p.reqs|] == p.reqs
  {
    hide ParseLines, BodyLines, FirstLineIsKept, GoodUrl, GoodLine;
    if p.state == Requests {
      BodyIsSwallowed(c, p, keys, r);
    } else if FirstLineIsKept(r) {
      BodyIsRead(c, p, keys, r);
    } else {
      BadBodyIsNotRead(c, p, keys, r);
    }
  }

  lemma {:induction false} RequestsStayAstray(c: LineCodec, lists: seq<seq<string>>, p: Progress,
                                              reqs: seq<Request>,
                                              i: nat, k: nat)
    requires KeyLists(lists, reqs) && p.state == Parameters && p.reqs == [] && i < k <= |reqs|
    requires Writable(lists, reqs)
    requires forall j :: 0 <= j < |reqs| ==> SoundRequest(c, reqs[j])
    requires !FirstLineIsKept(reqs[i]) && forall j :: 0 <= j < i ==> FirstLineIsKept(reqs[j])
    ensures Astray(ParseLines(c, p, RequestLines(lists, reqs, k)), reqs, i, k)
    ensures k == i + 1 && reqs[i].lines == [] ==>
              var q := ParseLines(c, p, RequestLines(lists, reqs, k)); q.pars == p.pars && q.reqs == reqs[..k]
    decreases k
  {
    hide ParseLines, BodyLines, SoundRequest, FirstLineIsKept, KeyLists, RequestLines;
    var r := reqs[k - 1];
    OneMoreRequest(c, lists, p, reqs, k);
    if k == i + 1 {
      RequestsAreRead(c, lists, p, reqs, i);
      BadBodyIsNotRead(c, p.(reqs := reqs[..i]), lists[k - 1], r);
      assert reqs[..k] == reqs[..i] + [r];
    } else {
      RequestsStayAstray(c, lists, p, reqs, i, k - 1);
      BodyFromAnywhere(c, ParseLines(c, p, RequestLines(lists, reqs, k - 1)), lists[k - 1], r);
    }
  }

  function FirstBad(reqs: seq<Request>, i: nat): (k: nat)
    requires i <= |reqs|
    ensures i <= k <= |reqs| && (k < |reqs| ==> !FirstLineIsKept(reqs[k]))
            && forall j :: i <= j < k ==> FirstLineIsKept(reqs[j])
    decreases |reqs| - i
  {
    if i < |reqs| && FirstLineIsKept(reqs[i]) then FirstBad(reqs, i + 1) else i
  }

  lemma RequestsReadable(c: LineCodec, lists: seq<seq<string>>, pars: map<string, string>,
                         reqs: seq<Request>)
    requires KeyLists(lists, reqs) && reqs != [] && forall j :: 0 <= j < |reqs| ==> SoundRequest(c, reqs[j])
    requires Writable(lists, reqs)
    ensures var q := ParseLines(c, Progress(Parameters, pars, []), RequestLines(lists, reqs, |reqs|));
            q.state != Services && q.reqs != [] && (q.pars == pars && q.reqs == reqs <==> Readable(reqs))
  {
    hide ParseLines, RequestLines, SoundRequest, FirstLineIsKept;
    var p := Progress(Parameters, pars, []);
    var i := FirstBad(reqs, 0);
    assert reqs[..|reqs|] == reqs;
    if i == |reqs| {
      RequestsAreRead(c, lists, p, reqs, |reqs|);
    } else {
      RequestsStayAstray(c, lists, p, reqs, i, |reqs|);
    }
  }

  /** In whatever order every dictionary lists its keys, the text that is written is read back as the same
      parameters and the same requests, with comment flags, URLs and lines in order, if and only if no request
      loses its first line to its URLs and none but the last has no lines. */
  lemma WrittenTextIsReadBack(c: LineCodec, listed: seq<string>, pars: map<string, string>, lists: seq<seq<string>>,
                              reqs: seq<Request>)
    requires KeyList(listed, pars) && KeyLists(lists, reqs) && WellFormed(c, pars, reqs)
    ensures (forall key :: key in listed ==> key in pars) && Writable(lists, reqs)
    ensures ParseText(c, Terminated(DocumentLines(listed, pars, lists, reqs))) == Some((pars, reqs)) <==> Readable(reqs)
  {
    KeysAreWritable(c, listed, pars, lists, reqs);
    hide ParseStep, ParseLines, ParameterLines, RequestLines, SoundRequest, Terminated, GoodParameter, Readable,
            KeyList,
         KeyLists, Writable;
    var head, tail := ParameterLines(listed, pars), RequestLines(lists, reqs, |reqs|);
    KeysListed(listed, pars);
    ParametersBlockIsRead(c, listed, pars);
    RequestsReadable(c, lists, pars, reqs);
    var q := ParseLines(c, Progress(Parameters, pars, []), tail);
    ParseLinesConcat(c, START, head, tail);
    ParseLinesConcat(c, START, head + tail, [""]);
    ParseOne(c, q, "");
    BlankStep(c, q);
    HeadIsLines(listed, pars);
    RequestsAreLines(c, lists, reqs, |reqs|);
    SplitTerminated(head + tail);
  }

  /** Writes data requests and parses the text: the same come back exactly if they are readable. */
  method WriteThenParse(c: LineCodec, fdr: DataRequest) returns (r: DataRequest?)
    requires WellFormed(c, fdr.pars, Values(fdr.reqs))
    ensures r != null ==> fresh(r) && fresh(r.reqs)
    ensures r != null && r.pars == fdr.pars && Values(r.reqs) == Values(fdr.reqs) <==> Readable(Values(fdr.reqs))
  {
    hide SoundRequest, GoodParameter, Readable, Terminated, DocumentLines, ParseText, KeyList, KeyLists, Writable;
    ghost var pars, reqs := fdr.pars, Values(fdr.reqs);
    HasDataCenters(c, reqs);
    var text, listed, lists := Write(fdr);
    WrittenTextIsReadBack(c, listed, pars, lists, reqs);
    r := Parse(c, text);
  }

  lemma HasDataCenters(c: LineCodec, reqs: seq<Request>)
    requires forall i :: 0 <= i < |reqs| ==> SoundRequest(c, reqs[i])
    ensures forall i :: 0 <= i < |reqs| ==> DATACENTER in reqs[i].urls
  {}

  // ----- Data requests that are not read back -----

  /** The only key of the smallest sound request. */
  const PLACE: map<string, string> := map[DATACENTER := "X"]

  /** Whatever lines are valid: of two requests without lines the first one swallows the second. */
  lemma EmptyRequestSwallows(c: LineCodec, lists: seq<seq<string>>)
    requires var r := Request(false, PLACE, []); KeyLists(lists, [r, r])
    ensures var r := Request(false, PLACE, []);
            && WellFormed(c, map[], [r, r]) && !Readable([r, r]) && Writable(lists, [r, r])
            && ParseText(c, Terminated(DocumentLines([], map[], lists, [r, r]))) != Some((map[], [r, r]))
  {
    hide ParseText, Terminated, DocumentLines, KeyLists, Writable;
    var r := Request(false, PLACE, []);
    PlaceIsSound(c, []);
    assert !FirstLineIsKept([r, r][0]);
    WrittenTextIsReadBack(c, [], map[], lists, [r, r]);
  }

  /** A valid first line for a station that is called SERVICE is taken for a URL. */
  lemma ServiceStationIsLost(c: LineCodec, rest: string, lists: seq<seq<string>>)
    requires GoodLine(c, false, "IU SERVICE " + rest)
            && KeyLists(lists, [Request(false, PLACE, ["IU SERVICE " + rest])])
    ensures var r := Request(false, PLACE, ["IU SERVICE " + rest]);
            && WellFormed(c, map[], [r]) && !Readable([r]) && Writable(lists, [r])
            && ParseText(c, Terminated(DocumentLines([], map[], lists, [r]))) != Some((map[], [r]))
  {
    hide ParseText, Terminated, DocumentLines, KeyLists, Writable, GoodLine, Contains;
    var line := "IU SERVICE " + rest;
    var r := Request(false, PLACE, [line]);
    PlaceIsSound(c, [line]);
    ContainsInside("IU ", "SERVICE", " " + rest);
    assert line == "IU " + "SERVICE" + (" " + rest);
    assert !FirstLineIsKept([r][0]);
    WrittenTextIsReadBack(c, [], map[], lists, [r]);
  }

  lemma {:induction false} ContainsInside(a: string, t: string, b: string)
    ensures Contains(a + t + b, t)
  {
    var s := a + t + b;
    if a == "" {
      assert s[..|t|] == t;
    } else {
      assert s[1..] == a[1..] + t + b;
      ContainsInside(a[1..], t, b);
    }
  }

  lemma PlaceIsSound(c: LineCodec, lines: seq<string>)
    requires forall i :: 0 <= i < |lines| ==> GoodLine(c, false, lines[i])
    ensures SoundRequest(c, Request(false, PLACE, lines))
  {
    assert GoodEntry(DATACENTER, "X");
  }
}
