/** What the line parser of fern/datareq.c makes of white space, comment marks and keywords, written out. */
module LineLaws {
  import opened DataRequests
  import opened Options
  import opened RequestText

  /** Space, tab, line feed, vertical tab, form feed and carriage return. */
  predicate AllSpace(s: string) {
    forall i :: 0 <= i < |s| ==> s[i] as int in {0x20, 0x09, 0x0A, 0x0B, 0x0C, 0x0D}
  }

  predicate SpaceFree(s: string) {
    forall i :: 0 <= i < |s| ==> s[i] as int !in {0x20, 0x09, 0x0A, 0x0B, 0x0C, 0x0D}
  }

  predicate NoSpaceAtEnds(s: string) {
    s != "" ==> !AllSpace([s[0]]) && !AllSpace([s[|s| - 1]])
  }

  lemma SpaceIs(ch: char)
    ensures IsSpace(ch) <==> AllSpace([ch])
  {
    assert [ch][0] == ch;
  }

  // ----- Stripping -----

  lemma {:induction false} RStripDrops(s: string, w: string)
    requires AllSpace(w)
    ensures RStrip(s + w) == RStrip(s)
    decreases |w|
  {
    if w == "" {
      assert s + w == s;
    } else {
      var last := |w| - 1;
      SpaceIs(w[last]);
      assert (s + w)[..|s + w| - 1] == s + w[..last];
      RStripDrops(s, w[..last]);
    }
  }

  lemma {:induction false} LStripDrops(w: string, s: string)
    requires AllSpace(w)
    ensures LStrip(w + s) == LStrip(s)
    decreases |w|
  {
    if w == "" {
      assert w + s == s;
    } else {
      SpaceIs(w[0]);
      assert (w + s)[1..] == w[1..] + s;
      LStripDrops(w[1..], s);
    }
  }

  /** White space around a text is removed, and nothing else. */
  lemma StripIs(a: string, s: string, b: string)
    requires AllSpace(a) && AllSpace(b) && NoSpaceAtEnds(s)
    ensures Strip(a + s + b) == s
  {
    RStripDrops(a + s, b);
    if s == "" {
      assert a + s == "" + a;
      RStripDrops("", a);
    } else {
      SpaceIs(s[0]);
      SpaceIs(s[|s| - 1]);
      assert RStrip(a + s) == a + s;
      LStripDrops(a, s);
    }
  }

  /** White space around keys and values does not matter. */
  lemma EntryIs(a: string, k: string, b: string, d: string, v: string, e: string)
    requires AllSpace(a) && AllSpace(b) && AllSpace(d) && AllSpace(e) && NoSpaceAtEnds(k) && NoSpaceAtEnds(v)
    requires '=' !in k
    ensures ParseKeyValue(a + k + b + "=" + (d + v + e)) == Some((k, v))
  {
    var left, right := a + k + b, d + v + e;
    var line := left + "=" + right;
    assert '=' !in left;
    FirstEquals(left, right);
    assert line[..|left|] == left && line[|left| + 1..] == right;
    StripIs(a, k, b);
    StripIs(d, v, e);
  }

  lemma {:induction false} FirstEquals(a: string, b: string)
    requires '=' !in a
    ensures IndexOf(a + "=" + b, '=') == Some(|a|)
  {
    var s := a + "=" + b;
    if a != "" {
      assert s[1..] == a[1..] + "=" + b;
      FirstEquals(a[1..], b);
    }
  }

  // ----- Keywords -----

  predicate Stands(s: string, i: nat, t: string) {
    i + |t| <= |s| && s[i..i + |t|] == t
  }

  /** A keyword is found exactly if it stands somewhere. */
  lemma {:induction false} ContainsIs(s: string, t: string)
    ensures Contains(s, t) <==> exists i: nat :: Stands(s, i, t)
    decreases |s|
  {
    if StartsWith(s, t) {
      assert Stands(s, 0, t);
    } else if s != "" {
      ContainsIs(s[1..], t);
      if Contains(s[1..], t) {
        var i: nat :| Stands(s[1..], i, t);
        assert s[i + 1..i + 1 + |t|] == s[1..][i..i + |t|];
        assert Stands(s, i + 1, t);
      }
      if i: nat :| Stands(s, i, t) {
        assert i > 0;
        assert s[1..][i - 1..i - 1 + |t|] == s[i..i + |t|];
        assert Stands(s[1..], i - 1, t);
      }
    }
  }

  // ----- Comment marks -----

  /** A `#`, any number of spaces, and then the line that is commented out. */
  lemma CommentIs(spaces: string, s: string)
    requires (forall i :: 0 <= i < |spaces| ==> spaces[i] == ' ') && (s != "" ==> s[0] != ' ')
    ensures Uncommented("#" + spaces + s) == if s != "" && s[0] == '#' then None else Some((true, s))
  {
    var line := "#" + spaces + s;
    assert line[1..] == spaces + s;
    SpacesDropped(spaces, s);
  }

  lemma {:induction false} SpacesDropped(spaces: string, s: string)
    requires (forall i :: 0 <= i < |spaces| ==> spaces[i] == ' ') && (s != "" ==> s[0] != ' ')
    ensures DropSpaces(spaces + s) == s
    decreases |spaces|
  {
    if spaces == "" {
      assert spaces + s == s;
    } else {
      assert (spaces + s)[1..] == spaces[1..] + s;
      SpacesDropped(spaces[1..], s);
    }
  }

  // ----- White space at the end of a line -----

  lemma {:induction false} DropSpacesOf(s: string, w: string) returns (w': string)
    requires AllSpace(w)
    ensures AllSpace(w') && DropSpaces(s + w) == DropSpaces(s) + w'
    decreases |s| + |w|
  {
    if s == "" {
      w' := DropSpaces(w);
      DropSpacesOfSpace(w);
      assert s + w == w && DropSpaces(s) + w' == w';
    } else if s[0] == ' ' {
      assert (s + w)[1..] == s[1..] + w;
      w' := DropSpacesOf(s[1..], w);
    } else {
      w' := w;
    }
  }

  lemma {:induction false} DropSpacesOfSpace(w: string)
    requires AllSpace(w)
    ensures AllSpace(DropSpaces(w))
    decreases |w|
  {
    if w != "" && w[0] == ' ' {
      DropSpacesOfSpace(w[1..]);
    }
  }

  lemma StartsWithSpace(s: string, w: string, t: string)
    requires AllSpace(w) && SpaceFree(t)
    ensures StartsWith(s + w, t) <==> StartsWith(s, t)
  {
    if |t| <= |s| {
      assert (s + w)[..|t|] == s[..|t|];
    } else {
      assert t[|s|] as int !in {0x20, 0x09, 0x0A, 0x0B, 0x0C, 0x0D};
      assert w != "" ==> (s + w)[|s|] == w[0];
      if |t| <= |s + w| {
        assert (s + w)[..|t|][|s|] == (s + w)[|s|];
      }
    }
  }

  lemma {:induction false} ContainsSpace(s: string, w: string, t: string)
    requires t != "" && AllSpace(w) && SpaceFree(t)
    ensures Contains(s + w, t) <==> Contains(s, t)
    decreases |s| + |w|
  {
    StartsWithSpace(s, w, t);
    if s != "" {
      assert (s + w)[1..] == s[1..] + w;
      ContainsSpace(s[1..], w, t);
    } else if w != "" {
      assert (s + w)[1..] == "" + w[1..];
      ContainsSpace("", w[1..], t);
    } else {
      assert s + w == "";
    }
  }

  /** White space at the end of a line, the carriage return of another system included, changes nothing. */
  lemma TrailingSpaceIsIgnored(c: LineCodec, p: Progress, line: string, w: string)
    requires AllSpace(w)
    ensures ParseStep(c, p, line + w) == ParseStep(c, p, line)
  {
    hide Act, Contains, RStrip, DropSpaces, StartsWith, AllSpace;
    var rest, w' := line, w;
    if line != "" && line[0] == '#' {
      assert (line + w)[1..] == line[1..] + w;
      w' := DropSpacesOf(line[1..], w);
      rest := DropSpaces(line[1..]);
    }
    NoMark(rest, w');
    NoMark(line, w);
    if line == "" || line[0] != '#' || rest == "" || rest[0] != '#' {
      RStripDrops(rest, w');
      NextStateIgnores(p.state, rest, w');
    }
  }

  lemma NoMark(s: string, w: string)
    requires AllSpace(w)
    ensures s + w != "" && (s + w)[0] == '#' <==> s != "" && s[0] == '#'
  {}

  lemma NextStateIgnores(state: State, s: string, w: string)
    requires AllSpace(w)
    ensures NextState(state, s + w) == NextState(state, s)
  {
    hide Contains, RStrip, StartsWith;
    assert SpaceFree("DATACENTER") && SpaceFree("SERVICE");
    StartsWithSpace(s, w, "DATACENTER");
    ContainsSpace(s, w, "SERVICE");
    RStripDrops(s, w);
  }
}
