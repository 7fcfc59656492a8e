/** What the parser of data requests in fern/datareq.c accepts, for every text, and writing it again. */
module RequestAccepted {
  import opened DataRequests
  import opened Options
  import opened RequestRoundTrip
  import opened RequestText

  // ----- What is accepted -----

  predicate AcceptedEntry(k: string, v: string) {
    Clean(k) && '\n' !in k && '=' !in k && Clean(v) && '\n' !in v
  }

  predicate AcceptedLine(c: LineCodec, line: string) {
    && line != "" && line[0] != '#' && !IsSpace(line[|line| - 1]) && '\n' !in line
    && ParseLine(c, line).Some?
  }

  predicate AcceptedRequest(c: LineCodec, r: Request) {
    && (forall k :: k in r.urls ==> AcceptedEntry(k, r.urls[k]))
    && (forall i :: 0 <= i < |r.lines| ==> AcceptedLine(c, r.lines[i]))
  }

  predicate Accepted(c: LineCodec, p: Progress) {
    && (forall k :: k in p.pars ==> AcceptedEntry(k, p.pars[k]))
    && (forall i :: 0 <= i < |p.reqs| ==> AcceptedRequest(c, p.reqs[i]))
  }

  // ----- Stripping -----

  lemma {:induction false} RStripIs(s: string)
    ensures RStrip(s) <= s && (RStrip(s) != "" ==> !IsSpace(RStrip(s)[|RStrip(s)| - 1]))
  {
    if s != "" && IsSpace(s[|s| - 1]) {
      RStripIs(s[..|s| - 1]);
    }
  }

  lemma {:induction false} LStripIs(s: string)
    ensures LStrip(s) != "" ==> !IsSpace(LStrip(s)[0]) && LStrip(s)[|LStrip(s)| - 1] == s[|s| - 1]
    ensures |LStrip(s)| <= |s| && forall ch :: ch in LStrip(s) ==> ch in s
  {
    if s != "" && IsSpace(s[0]) {
      LStripIs(s[1..]);
    }
  }

  lemma StripIsClean(s: string)
    ensures Clean(Strip(s)) && forall ch :: ch in Strip(s) ==> ch in s
  {
    RStripIs(s);
    LStripIs(RStrip(s));
  }

  lemma {:induction false} DropSpacesIs(s: string)
    ensures forall ch :: ch in DropSpaces(s) ==> ch in s
  {
    if s != "" && s[0] == ' ' {
      DropSpacesIs(s[1..]);
    }
  }

  lemma UncommentedIs(line: string)
    requires '\n' !in line && Uncommented(line).Some?
    ensures var rest := Uncommented(line).value.1; '\n' !in rest && (rest != "" ==> rest[0] != '#')
  {
    if line != "" {
      DropSpacesIs(line[1..]);
    }
  }

  lemma EntryIsAccepted(line: string)
    requires '\n' !in line && ParseKeyValue(line).Some?
    ensures var (k, v) := ParseKeyValue(line).value; AcceptedEntry(k, v)
  {
    hide Strip, Clean;
    var p := IndexOf(line, '=').value;
    StripIsClean(line[..p]);
    StripIsClean(line[p + 1..]);
  }

  // ----- Every step -----

  lemma LastIsAccepted(c: LineCodec, p: Progress, r: Request)
    requires Accepted(c, p) && p.reqs != [] && AcceptedRequest(c, r)
    ensures Accepted(c, p.(reqs := SetLast(p.reqs, r)))
  {}

  lemma NothingIsNoLine(c: LineCodec)
    ensures ParseLine(c, "").None?
  {}

  lemma ActIsAccepted(c: LineCodec, p: Progress, line: string)
    requires Accepted(c, p) && '\n' !in line
    requires line != "" ==> line[0] != '#' && !IsSpace(line[|line| - 1])
    ensures Accepted(c, Act(c, p, line))
  {
    hide ParseKeyValue, ParseLine, AcceptedEntry, IsSpace;
    if ParseKeyValue(line).Some? {
      EntryIsAccepted(line);
    }
    if p.state != Parameters && p.reqs != [] {
      var r := p.reqs[|p.reqs| - 1];
      assert AcceptedRequest(c, r);
      if p.state == Services && ParseKeyValue(line).Some? {
        var kv := ParseKeyValue(line).value;
        LastIsAccepted(c, p, r.(urls := r.urls[kv.0 := kv.1]));
      } else if p.state == Requests && ParseLine(c, line).Some? {
        NothingIsNoLine(c);
        LastIsAccepted(c, p, r.(lines := r.lines + [line]));
      }
    }
  }

  lemma StepIsAccepted(c: LineCodec, p: Progress, line: string)
    requires Accepted(c, p) && '\n' !in line
    ensures Accepted(c, ParseStep(c, p, line))
  {
    hide Uncommented, NextState, Act, RStrip, IsSpace, AcceptedEntry, AcceptedLine;
    var u := Uncommented(line);
    if u.Some? {
      UncommentedIs(line);
      var (comment, rest) := u.value;
      var state := NextState(p.state, rest);
      var reqs := if p.state == Parameters && state == Services then p.reqs + [Request(comment, map[], [])] else p.reqs;
      RStripIs(rest);
      ActIsAccepted(c, Progress(state, p.pars, reqs), RStrip(rest));
    }
  }

  lemma {:induction false} LinesAreAccepted(c: LineCodec, p: Progress, lines: seq<string>)
    requires Accepted(c, p) && OneLineEach(lines)
    ensures Accepted(c, ParseLines(c, p, lines))
    decreases |lines|
  {
    hide Accepted, ParseStep;
    if lines != [] {
      StepIsAccepted(c, p, lines[0]);
      LinesAreAccepted(c, ParseStep(c, p, lines[0]), lines[1..]);
    }
  }

  lemma {:induction false} SplitIsLines(text: string)
    ensures OneLineEach(Split(text))
    decreases |text|
  {
    var end := IndexOf(text, '\n');
    if end.Some? {
      SplitIsLines(text[end.value + 1..]);
    }
  }

  // ----- Writing it again -----

  predicate PlainKey(k: string) {
    k != "" ==> k[0] != '#'
  }

  /** The data center is named, every other entry mentions SERVICE, and a request that is commented out has no line
      that starts with a space. */
  predicate PlainRequest(r: Request) {
    && DATACENTER in r.urls
    && (forall k :: k in r.urls ==> PlainKey(k) && (k == DATACENTER || Contains(k + "=" + r.urls[k], "SERVICE")))
    && (r.comment ==> forall i :: 0 <= i < |r.lines| && r.lines[i] != "" ==> r.lines[i][0] != ' ')
  }

  ghost predicate Plain(pars: map<string, string>, reqs: seq<Request>) {
    && (forall k :: k in pars ==> PlainKey(k) && !StartsWith(k + "=" + pars[k], DATACENTER))
    && (forall i :: 0 <= i < |reqs| ==> PlainRequest(reqs[i]))
  }

  lemma AcceptedIsSound(c: LineCodec, r: Request)
    requires AcceptedRequest(c, r)
    ensures SoundRequest(c, r) <==> PlainRequest(r)
  {
    hide Contains, ParseLine, Clean, IsSpace;
    if SoundRequest(c, r) {
      forall k | k in r.urls
        ensures PlainKey(k) && (k == DATACENTER || Contains(k + "=" + r.urls[k], "SERVICE"))
      {
        assert GoodUrl(k, r.urls[k]);
      }
      forall i | 0 <= i < |r.lines| && r.comment
        ensures r.lines[i] != "" ==> r.lines[i][0] != ' '
      {
        assert GoodLine(c, r.comment, r.lines[i]);
      }
    }
    if PlainRequest(r) {
      forall k | k in r.urls
        ensures GoodUrl(k, r.urls[k])
      {
        assert AcceptedEntry(k, r.urls[k]);
      }
      forall i | 0 <= i < |r.lines|
        ensures GoodLine(c, r.comment, r.lines[i])
      {
        assert AcceptedLine(c, r.lines[i]);
      }
    }
  }

  /** For every text: what is accepted has clean entries and valid lines. */
  lemma TextIsAccepted(c: LineCodec, text: string)
    requires ParseText(c, text).Some?
    ensures var (pars, reqs) := ParseText(c, text).value;
            && reqs != [] && Accepted(c, Progress(Parameters, pars, reqs))
            && (WellFormed(c, pars, reqs) <==> Plain(pars, reqs))
  {
    hide ParseLines, AcceptedRequest, SoundRequest, PlainRequest, Clean, StartsWith;
    SplitIsLines(text);
    LinesAreAccepted(c, START, Split(text));
    var (pars, reqs) := ParseText(c, text).value;
    forall i | 0 <= i < |reqs|
      ensures SoundRequest(c, reqs[i]) <==> PlainRequest(reqs[i])
    {
      AcceptedIsSound(c, reqs[i]);
    }
    forall k | k in pars
      ensures GoodParameter(k, pars[k]) <==> PlainKey(k) && !StartsWith(k + "=" + pars[k], DATACENTER)
    {
      assert AcceptedEntry(k, pars[k]);
    }
  }

  /** For every text that is accepted with plain entries: writing the requests and parsing them again gives the same
      if and only if every request keeps its first line. */
  lemma AcceptedTextIsStable(c: LineCodec, text: string, listed: seq<string>, lists: seq<seq<string>>)
    requires ParseText(c, text).Some?
    requires var (pars, reqs) := ParseText(c, text).value;
             Plain(pars, reqs) && KeyList(listed, pars) && KeyLists(lists, reqs)
    ensures var (pars, reqs) := ParseText(c, text).value;
            && (forall key :: key in listed ==> key in pars) && Writable(lists, reqs)
            && (ParseText(c, Terminated(DocumentLines(listed, pars, lists, reqs))) == Some((pars, reqs))
                <==> Readable(reqs))
  {
    hide ParseText, Plain, KeyList, KeyLists, Readable, WellFormed, Terminated, DocumentLines, Accepted, Writable;
    var (pars, reqs) := ParseText(c, text).value;
    TextIsAccepted(c, text);
    WrittenTextIsReadBack(c, listed, pars, lists, reqs);
  }

  /** One line with a key that only starts like the data center's opens a request without data center, which the writer
      cannot write. */
  lemma LongerKeyIsNotPlain(c: LineCodec, more: string, v: string)
    requires more != "" && GoodEntry(DATACENTER + more, v)
    ensures var r := Request(false, map[DATACENTER + more := v], []);
            ParseText(c, DATACENTER + more + "=" + v) == Some((map[], [r])) && !Plain(map[], [r])
  {
    hide ParseKeyValue, RStrip, StartsWith, Uncommented, Contains, DATACENTER, IsSpace;
    var k := DATACENTER + more;
    var s := k + "=" + v;
    var r := Request(false, map[k := v], []);
    EntryIsRead(k, v);
    MarkIsRemoved(false, s);
    assert s == Mark(false) + s;
    assert StartsWith(s, "DATACENTER") by {
      LongerStarts(more, v);
    }
    assert ParseStep(c, START, s) == Progress(Services, map[], [r]);
    hide ParseStep;
    OneLineOnly(s);
    ParseOne(c, START, s);
    assert !PlainRequest([r][0]) by {
      assert k != DATACENTER;
    }
  }

  lemma LongerStarts(more: string, v: string)
    ensures StartsWith(DATACENTER + more + "=" + v, "DATACENTER")
  {}

  lemma OneLineOnly(s: string)
    requires '\n' !in s
    ensures Split(s) == [s]
  {}
}
