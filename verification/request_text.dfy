/** The text of data requests: the line-driven parser and the writer of fern/datareq.c. */
module RequestText {
  import opened Options
  import opened DataRequests

  // ----- C strings -----

  /** `isspace`. */
  predicate IsSpace(ch: char) {
    ch == ' ' || '\t' <= ch <= '\r'
  }

  /** `fern_rstrip`. */
  function RStrip(s: string): string {
    if s != "" && IsSpace(s[|s| - 1]) then RStrip(s[..|s| - 1]) else s
  }

  /** `fern_lstrip`. */
  function LStrip(s: string): string {
    if s != "" && IsSpace(s[0]) then LStrip(s[1..]) else s
  }

  /** `fern_strip`. */
  function Strip(s: string): string {
    LStrip(RStrip(s))
  }

  predicate StartsWith(s: string, t: string) {
    |t| <= |s| && s[..|t|] == t
  }

  /** `strstr` finds something. */
  predicate Contains(s: string, t: string) {
    StartsWith(s, t) || (s != "" && Contains(s[1..], t))
  }

  /** `strchr`. */
  function IndexOf(s: string, ch: char): (r: Option<nat>)
    ensures r.Some? ==> r.value < |s| && s[r.value] == ch && ch !in s[..r.value]
    ensures r.None? ==> ch !in s
  {
    if s == "" then None
    else if s[0] == ch then Some(0)
    else
      var rest := IndexOf(s[1..], ch);
      if rest.None? then None
      else
        assert s[..rest.value + 1] == [s[0]] + s[1..][..rest.value];
        Some(rest.value + 1)
  }

  /** What `strsep` yields, one after the other, for newlines. */
  function Split(text: string): seq<string>
    decreases |text|
  {
    var end := IndexOf(text, '\n');
    if end.None? then [text] else [text[..end.value]] + Split(text[end.value + 1..])
  }

  function DropSpaces(s: string): string {
    if s != "" && s[0] == ' ' then DropSpaces(s[1..]) else s
  }

  /** `parse_key_value`. */
  function ParseKeyValue(line: string): Option<(string, string)> {
    var p := IndexOf(line, '=');
    if p.None? then None else Some((Strip(line[..p.value]), Strip(line[p.value + 1..])))
  }

  // ----- Parsing -----

  datatype State = Parameters | Services | Requests

  /** What has been read so far; the last request is the one being filled. */
  datatype Progress = Progress(state: State, pars: map<string, string>, reqs: seq<Request>)

  /** A line without its comment mark, or nothing for a line that is to be skipped. */
  function Uncommented(line: string): Option<(bool, string)> {
    if line == "" || line[0] != '#' then Some((false, line))
    else
      var rest := DropSpaces(line[1..]);
      if rest != "" && rest[0] == '#' then None else Some((true, rest))
  }

  function NextState(state: State, line: string): State {
    match state
    case Parameters => if StartsWith(line, "DATACENTER") then Services else Parameters
    case Services => if Contains(line, "SERVICE") then Services else Requests
    case Requests => if RStrip(line) == "" then Parameters else Requests
  }

  function SetLast(reqs: seq<Request>, r: Request): seq<Request>
    requires reqs != []
  {
    reqs[|reqs| - 1 := r]
  }

  /** What is done with a line, stripped at its end, once the state is known. */
  function Act(c: LineCodec, p: Progress, line: string): Progress {
    match p.state
    case Parameters =>
      var kv := ParseKeyValue(line);
      if line != "" && kv.Some? then p.(pars := p.pars[kv.value.0 := kv.value.1]) else p
    case Services =>
      var kv := ParseKeyValue(line);
      if kv.Some? && p.reqs != [] then
        var r := p.reqs[|p.reqs| - 1];
        p.(reqs := SetLast(p.reqs, r.(urls := r.urls[kv.value.0 := kv.value.1])))
      else p
    case Requests =>
      if ParseLine(c, line).Some? && p.reqs != [] then
        var r := p.reqs[|p.reqs| - 1];
        p.(reqs := SetLast(p.reqs, r.(lines := r.lines + [line])))
      else p
  }

  /** One turn of the loop of `data_request_parse`. */
  function ParseStep(c: LineCodec, p: Progress, line: string): Progress {
    var u := Uncommented(line);
    if u.None? then p
    else
      var (comment, rest) := u.value;
      var state := NextState(p.state, rest);
      var reqs := if p.state == Parameters && state == Services then p.reqs + [Request(comment, map[], [])] else p.reqs;
      Act(c, Progress(state, p.pars, reqs), RStrip(rest))
  }

  function ParseLines(c: LineCodec, p: Progress, lines: seq<string>): Progress
    decreases |lines|
  {
    if lines == [] then p else ParseLines(c, ParseStep(c, p, lines[0]), lines[1..])
  }

  const START: Progress := Progress(Parameters, map[], [])

  /** `data_request_parse`: parameters and requests, if there is a request at all. */
  function ParseText(c: LineCodec, text: string): Option<(map<string, string>, seq<Request>)> {
    var p := ParseLines(c, START, Split(text));
    if p.reqs == [] then None else Some((p.pars, p.reqs))
  }

  /** The request being filled is the last one, and no other is the same object. */
  ghost predicate Filling(fdr: DataRequest, state: State, fd: BreqFast?)
    reads fdr
  {
    && (state != Parameters ==> fdr.reqs != [])
    && (fdr.reqs != [] ==> fd == fdr.reqs[|fdr.reqs| - 1])
    && (forall i :: 0 <= i < |fdr.reqs| - 1 ==> fdr.reqs[i] != fd)
  }

  ghost function Now(fdr: DataRequest, state: State): Progress
    reads fdr, fdr.reqs
  {
    Progress(state, fdr.pars, Values(fdr.reqs))
  }

  /** The last request is the one that changes. */
  lemma OnlyLast(fdr: DataRequest, before: seq<Request>, fd: BreqFast)
    requires fdr.reqs != [] && fd == fdr.reqs[|fdr.reqs| - 1] && |before| == |fdr.reqs|
    requires forall i :: 0 <= i < |before| - 1 ==> fdr.reqs[i].Value() == before[i]
    ensures Values(fdr.reqs) == SetLast(before, fd.Value())
  {}

  /** The action of `data_request_parse` on a line, by state. */
  method Perform(c: LineCodec, fdr: DataRequest, state: State, fd: BreqFast?, line: string)
    requires Filling(fdr, state, fd)
    modifies fdr`pars, fd
    ensures Filling(fdr, state, fd) && Now(fdr, state) == Act(c, old(Now(fdr, state)), line)
  {
    hide ParseKeyValue, ParseLine;
    ghost var before := Values(fdr.reqs);
    if state == Parameters {
      var kv := ParseKeyValue(line);
      if line != "" && kv.Some? {
        fdr.pars := fdr.pars[kv.value.0 := kv.value.1];
      }
    } else if state == Services {
      var kv := ParseKeyValue(line);
      if kv.Some? {
        fd.urls := fd.urls[kv.value.0 := kv.value.1];
        OnlyLast(fdr, before, fd);
      }
    } else {
      if ParseLine(c, line).Some? {
        fd.lines := fd.lines + [line];
        OnlyLast(fdr, before, fd);
      }
    }
  }

  method OpenRequest(fdr: DataRequest, comment: bool) returns (fd: BreqFast)
    modifies fdr`reqs
    ensures fresh(fd) && fdr.reqs == old(fdr.reqs) + [fd]
    ensures Values(fdr.reqs) == old(Values(fdr.reqs)) + [Request(comment, map[], [])]
  {
    fd := new BreqFast();
    fd.comment := comment;
    fdr.reqs := fdr.reqs + [fd];
  }

  /** The body of the loop of `data_request_parse`. */
  method TakeLine(c: LineCodec, fdr: DataRequest, state: State, fd: BreqFast?, line: string)
    returns (state': State, fd': BreqFast?)
    requires Filling(fdr, state, fd)
    modifies fdr, fd
    ensures Filling(fdr, state', fd') && (fd' == fd || fresh(fd'))
    ensures Now(fdr, state') == ParseStep(c, old(Now(fdr, state)), line)
    ensures forall k :: 0 <= k < |fdr.reqs| ==> fdr.reqs[k] in old(fdr.reqs) || fresh(fdr.reqs[k])
  {
    hide NextState, Act, RStrip, Uncommented, Values;
    state', fd' := state, fd;
    var u := Uncommented(line);
    if u.None? {
      return;
    }
    var (comment, rest) := u.value;
    state' := NextState(state, rest);
    NextStates(state, rest);
    if state == Parameters && state' == Services {
      fd' := OpenRequest(fdr, comment);
    }
    Perform(c, fdr, state', fd', RStrip(rest));
  }

  lemma NextStates(state: State, line: string)
    ensures NextState(state, line) == Requests ==> state != Parameters
    ensures NextState(state, line) == Services ==> state == Parameters || state == Services
  {
    hide Contains, RStrip, StartsWith;
  }

  /** `data_request_parse`. */
  method Parse(c: LineCodec, data: string) returns (fdr: DataRequest?)
    ensures fdr != null <==> ParseText(c, data).Some?
    ensures fdr != null ==> fresh(fdr) && fresh(fdr.reqs) && ParseText(c, data) == Some((fdr.pars, Values(fdr.reqs)))
  {
    hide ParseStep, NextState, Act;
    var taken := new DataRequest();
    var state, fd: BreqFast? := Parameters, null;
    var rest := Some(data);
    ghost var goal := ParseLines(c, START, Split(data));
    assert Now(taken, state) == START;
    while rest.Some?
      invariant Filling(taken, state, fd) && fresh(taken.reqs) && (fd == null || fresh(fd))
      invariant goal == if rest.Some? then ParseLines(c, Now(taken, state), Split(rest.value)) else Now(taken, state)
      decreases rest.Some?, if rest.Some? then |rest.value| else 0
    {
      var text := rest.value;
      var end := IndexOf(text, '\n');
      var line := if end.Some? then text[..end.value] else text;
      state, fd := TakeLine(c, taken, state, fd, line);
      rest := if end.Some? then Some(text[end.value + 1..]) else None;
    }
    return if taken.reqs == [] then null else taken;
  }

  // ----- Writing -----

  function Decimal(n: nat): (s: string)
    ensures s != "" && forall i :: 0 <= i < |s| ==> '0' <= s[i] <= '9'
  {
    var digit := [('0' as int + n % 10) as char];
    if n < 10 then digit else Decimal(n / 10) + digit
  }

  function Mark(comment: bool): string {
    if comment then "# " else ""
  }

  /** One line for every key, in the order given. */
  function EntryLines(mark: string, keys: seq<string>, m: map<string, string>): (r: seq<string>)
    requires forall k :: k in keys ==> k in m
    ensures |r| == |keys|
  {
    if keys == [] then [] else [mark + keys[0] + "=" + m[keys[0]]] + EntryLines(mark, keys[1..], m)
  }

  function MarkedLines(mark: string, lines: seq<string>): (r: seq<string>)
    ensures |r| == |lines|
  {
    if lines == [] then [] else [mark + lines[0]] + MarkedLines(mark, lines[1..])
  }

  const DATACENTER := "DATACENTER"

  /** All keys but the data center, which is written first. */
  function Others(keys: seq<string>): (r: seq<string>)
    ensures forall k :: k in r <==> k in keys && k != DATACENTER
  {
    if keys == [] then []
    else (if keys[0] == DATACENTER then [] else [keys[0]]) + Others(keys[1..])
  }

  /** For every request a list of its keys: what the dictionaries give when they are asked. */
  ghost predicate KeyLists(lists: seq<seq<string>>, reqs: seq<Request>) {
    |lists| == |reqs| && forall i :: 0 <= i < |reqs| ==> KeyList(lists[i], reqs[i].urls)
  }

  /** Every request has a data center, and the keys listed for it. */
  ghost predicate Writable(lists: seq<seq<string>>, reqs: seq<Request>) {
    && |lists| == |reqs|
    && forall i :: 0 <= i < |reqs| ==>
         DATACENTER in reqs[i].urls && forall key :: key in lists[i] ==> key in reqs[i].urls
  }

  function ParameterLines(keys: seq<string>, pars: map<string, string>): seq<string>
    requires forall k :: k in keys ==> k in pars
  {
    ["## REQUEST PARAMETERS "] + EntryLines("", keys, pars) + [""]
  }

  function Header(i: nat, n: nat): string {
    "## REQUEST " + Decimal(i) + "/ " + Decimal(n)
  }

  /** A request after its header. */
  function BodyLines(keys: seq<string>, r: Request): seq<string>
    requires DATACENTER in r.urls && forall k :: k in keys ==> k in r.urls
  {
    var mark := Mark(r.comment);
    [mark + DATACENTER + "=" + r.urls[DATACENTER]] + EntryLines(mark, Others(keys), r.urls)
    + MarkedLines(mark, r.lines) + [""]
  }

  /** The first `k` of `n` requests. */
  ghost function RequestLines(lists: seq<seq<string>>, reqs: seq<Request>, k: nat): seq<string>
    requires k <= |reqs| && Writable(lists, reqs)
  {
    if k == 0 then []
    else RequestLines(lists, reqs, k - 1) + [Header(k, |reqs|)] + BodyLines(lists[k - 1], reqs[k - 1])
  }

  ghost function DocumentLines(listed: seq<string>, pars: map<string, string>, lists: seq<seq<string>>,
                               reqs: seq<Request>): seq<string>
    requires (forall key :: key in listed ==> key in pars) && Writable(lists, reqs)
  {
    ParameterLines(listed, pars) + RequestLines(lists, reqs, |reqs|)
  }

  /** Every line with its newline. */
  function Terminated(lines: seq<string>): string {
    if lines == [] then "" else Terminated(lines[..|lines| - 1]) + lines[|lines| - 1] + "\n"
  }

  lemma {:induction false} TerminatedConcat(a: seq<string>, b: seq<string>)
    ensures Terminated(a + b) == Terminated(a) + Terminated(b)
  {
    if b == [] {
      assert a + b == a;
    } else {
      var last := |b| - 1;
      assert (a + b)[..|a| + last] == a + b[..last];
      TerminatedConcat(a, b[..last]);
    }
  }

  /** Writes one entry for every key. */
  method WriteEntries(mark: string, keys: seq<string>, m: map<string, string>, text: string) returns (written: string)
    requires forall k :: k in keys ==> k in m
    ensures written == text + Terminated(EntryLines(mark, keys, m))
  {
    written := text;
    ghost var all := EntryLines(mark, keys, m);
    for j := 0 to |keys|
      invariant j <= |all| == |keys|
      invariant all[j..] == EntryLines(mark, keys[j..], m)
      invariant written == text + Terminated(all[..j])
    {
      assert keys[j..][1..] == keys[j + 1..];
      assert all[j..][0] == mark + keys[j] + "=" + m[keys[j]] && all[j..][1..] == all[j + 1..];
      assert all[..j + 1][..j] == all[..j];
      written := written + mark + keys[j] + "=" + m[keys[j]] + "\n";
    }
    assert all[..|all|] == all;
  }

  /** Writes every line of a request. */
  method WriteMarked(mark: string, lines: seq<string>, text: string) returns (written: string)
    ensures written == text + Terminated(MarkedLines(mark, lines))
  {
    written := text;
    ghost var all := MarkedLines(mark, lines);
    for j := 0 to |lines|
      invariant j <= |all| && all[j..] == MarkedLines(mark, lines[j..])
      invariant written == text + Terminated(all[..j])
    {
      assert lines[j..][1..] == lines[j + 1..];
      assert all[j..][0] == mark + lines[j] && all[j..][1..] == all[j + 1..];
      assert all[..j + 1][..j] == all[..j];
      written := written + mark + lines[j] + "\n";
    }
    assert all[..|all|] == all;
  }

  lemma TerminatedOne(line: string)
    ensures Terminated([line]) == line + "\n"
  {
    assert [line][..0] == [];
  }

  /** Writes one entry for every key but the data center's. */
  method WriteUrls(mark: string, keys: seq<string>, m: map<string, string>, text: string) returns (written: string)
    requires forall k :: k in keys ==> k in m
    ensures written == text + Terminated(EntryLines(mark, Others(keys), m))
  {
    hide Terminated;
    written := text;
    NoEntries(mark, m);
    for j := 0 to |keys|
      invariant written == text + Terminated(EntryLines(mark, Others(keys[..j]), m))
    {
      assert keys[..j + 1] == keys[..j] + [keys[j]];
      OthersSnoc(keys[..j], keys[j]);
      if keys[j] != "DATACENTER" {
        EntriesSnoc(mark, Others(keys[..j]), keys[j], m);
        ghost var before := Terminated(EntryLines(mark, Others(keys[..j]), m));
        assert text + (before + mark + keys[j] + "=" + m[keys[j]] + "\n")
            == text + before + mark + keys[j] + "=" + m[keys[j]] + "\n";
        written := written + mark + keys[j] + "=" + m[keys[j]] + "\n";
      } else {
        assert Others(keys[..j]) + [] == Others(keys[..j]);
      }
    }
    assert keys[..|keys|] == keys;
  }

  lemma NoEntries(mark: string, m: map<string, string>)
    ensures Terminated(EntryLines(mark, Others([]), m)) == ""
  {}

  lemma {:induction false} OthersSnoc(keys: seq<string>, key: string)
    ensures Others(keys + [key]) == Others(keys) + if key == DATACENTER then [] else [key]
    decreases |keys|
  {
    if keys != [] {
      assert (keys + [key])[1..] == keys[1..] + [key];
      OthersSnoc(keys[1..], key);
    }
  }

  lemma EntriesSnoc(mark: string, keys: seq<string>, key: string, m: map<string, string>)
    requires key in m && forall k :: k in keys ==> k in m
    ensures Terminated(EntryLines(mark, keys + [key], m))
            == Terminated(EntryLines(mark, keys, m)) + mark + key + "=" + m[key] + "\n"
  {
    EntryLinesSnoc(mark, keys, key, m);
    TerminatedConcat(EntryLines(mark, keys, m), [mark + key + "=" + m[key]]);
    TerminatedOne(mark + key + "=" + m[key]);
  }

  lemma {:induction false} EntryLinesSnoc(mark: string, keys: seq<string>, key: string, m: map<string, string>)
    requires key in m && forall k :: k in keys ==> k in m
    ensures EntryLines(mark, keys + [key], m) == EntryLines(mark, keys, m) + [mark + key + "=" + m[key]]
    decreases |keys|
  {
    if keys != [] {
      assert (keys + [key])[1..] == keys[1..] + [key];
      EntryLinesSnoc(mark, keys[1..], key, m);
    }
  }

  /** A request after its header. */
  method WriteBody(keys: seq<string>, r: BreqFast, text: string) returns (written: string)
    requires DATACENTER in r.urls && forall k :: k in keys ==> k in r.urls
    ensures written == text + Terminated(BodyLines(keys, r.Value()))
  {
    hide Terminated, EntryLines, MarkedLines, Others;
    var mark := Mark(r.comment);
    ghost var first := mark + DATACENTER + "=" + r.urls[DATACENTER];
    ghost var entries, lines := EntryLines(mark, Others(keys), r.urls), MarkedLines(mark, r.lines);
    TerminatedOne(first);
    TerminatedOne("");
    TerminatedConcat([first], entries);
    TerminatedConcat([first] + entries, lines);
    TerminatedConcat([first] + entries + lines, [""]);
    written := text + mark + DATACENTER + "=" + r.urls[DATACENTER] + "\n";
    written := WriteUrls(mark, keys, r.urls, written);
    written := WriteMarked(mark, r.lines, written);
    written := written + "\n";
  }

  /** The search parameters. */
  method WriteParameters(keys: seq<string>, pars: map<string, string>) returns (text: string)
    requires forall k :: k in keys ==> k in pars
    ensures text == Terminated(ParameterLines(keys, pars))
  {
    hide Terminated, EntryLines;
    ghost var entries := EntryLines("", keys, pars);
    TerminatedOne("## REQUEST PARAMETERS ");
    TerminatedOne("");
    TerminatedConcat(["## REQUEST PARAMETERS "], entries);
    TerminatedConcat(["## REQUEST PARAMETERS "] + entries, [""]);
    text := "## REQUEST PARAMETERS \n";
    text := WriteEntries("", keys, pars, text);
    text := text + "\n";
  }

  lemma RequestStep(lists: seq<seq<string>>, reqs: seq<Request>, i: nat)
    requires i < |reqs|
    requires Writable(lists, reqs)
    ensures Terminated(RequestLines(lists, reqs, i + 1))
            == Terminated(RequestLines(lists, reqs, i)) + (Header(i + 1, |reqs|) + "\n")
               + Terminated(BodyLines(lists[i], reqs[i]))
  {
    hide Header, BodyLines;
    var before, header := RequestLines(lists, reqs, i), Header(i + 1, |reqs|);
    TerminatedOne(header);
    TerminatedConcat(before, [header]);
    TerminatedConcat(before + [header], BodyLines(lists[i], reqs[i]));
  }

  /** The header and the rest of the next request, after asking for its keys. */
  method WriteNext(r: BreqFast, i: nat, n: nat, text: string, ghost head: string, ghost lists: seq<seq<string>>,
                   ghost reqs: seq<Request>)
    returns (written: string, ghost lists': seq<seq<string>>)
    requires i < n == |reqs| && reqs[i] == r.Value() && Writable(lists, reqs)
    requires text == head + Terminated(RequestLines(lists, reqs, i))
    ensures |lists'| == |lists| && KeyList(lists'[i], r.urls) && lists' == lists[i := lists'[i]]
    ensures Writable(lists', reqs) && written == head + Terminated(RequestLines(lists', reqs, i + 1))
  {
    hide Terminated, Header, BodyLines, RequestLines, KeyList;
    var keys := ListKeys(r.urls);
    KeysListed(keys, r.urls);
    LaterLists(lists, i, keys, reqs, i);
    lists' := lists[i := keys];
    RequestStep(lists', reqs, i);
    written := text + Header(i + 1, n) + "\n";
    written := WriteBody(keys, r, written);
  }

  /** `data_request_write` to a file: every dictionary is asked for its keys once, and lists them in some order. */
  method Write(fdr: DataRequest) returns (text: string, ghost listed: seq<string>, ghost lists: seq<seq<string>>)
    requires forall i :: 0 <= i < |fdr.reqs| ==> DATACENTER in fdr.reqs[i].urls
    ensures KeyList(listed, fdr.pars) && KeyLists(lists, Values(fdr.reqs))
    ensures (forall key :: key in listed ==> key in fdr.pars) && Writable(lists, Values(fdr.reqs))
    ensures text == Terminated(DocumentLines(listed, fdr.pars, lists, Values(fdr.reqs)))
  {
    hide Terminated, RequestLines, ParameterLines, KeyList;
    ghost var reqs := Values(fdr.reqs);
    var keys := ListKeys(fdr.pars);
    KeysListed(keys, fdr.pars);
    listed := keys;
    text := WriteParameters(keys, fdr.pars);
    ghost var head := text;
    lists := seq(|fdr.reqs|, i => []);
    NoRequests(lists, reqs);
    hide Writable;
    for i := 0 to |fdr.reqs|
      invariant |lists| == |reqs| && Writable(lists, reqs)
      invariant forall j :: 0 <= j < i ==> KeyList(lists[j], reqs[j].urls)
      invariant text == head + Terminated(RequestLines(lists, reqs, i))
    {
      text, lists := WriteNext(fdr.reqs[i], i, |fdr.reqs|, text, head, lists, reqs);
    }
    TerminatedConcat(ParameterLines(listed, fdr.pars), RequestLines(lists, reqs, |reqs|));
  }

  lemma NoRequests(lists: seq<seq<string>>, reqs: seq<Request>)
    requires Writable(lists, reqs)
    ensures Terminated(RequestLines(lists, reqs, 0)) == ""
  {}

  /** What has been written does not depend on the lists of requests still to come. */
  lemma {:induction false} LaterLists(lists: seq<seq<string>>, i: nat, keys: seq<string>, reqs: seq<Request>, k: nat)
    requires Writable(lists, reqs) && k <= i < |reqs| && forall key :: key in keys ==> key in reqs[i].urls
    ensures Writable(lists[i := keys], reqs)
    ensures RequestLines(lists[i := keys], reqs, k) == RequestLines(lists, reqs, k)
  {
    hide BodyLines, Header;
    if k > 0 {
      LaterLists(lists, i, keys, reqs, k - 1);
    }
  }
}
