/**
  Whole-file properties of the playlist loader. The loop is split into two
  independent descriptions: the commits the lines produce (pending metadata
  plus URL, one per URL line) and the store filled with those commits in order.
  The playlist `read_playlist` builds is then characterised without reference
  to the loop: first-seen group order, distinct names, each group's entries
  in line order, and the entry count.
*/
module LoaderProps {
  import opened Wrappers
  import opened CString
  import opened Scan
  import opened Store
  import opened Loader

  /** One committed entry: the pending metadata at a URL line and the URL taken from it. */
  datatype Commit = Commit(meta: Pending, url: string)

  /** The pending state after `lines`, starting from `pend`. */
  function PendingAfter(pend: Pending, lines: seq<string>): Pending
    decreases |lines|
  {
    if |lines| == 0 then pend
    else PendingAfter(NextPending(pend, lines[0]), lines[1..])
  }

  /** The commits `lines` produce, starting from the pending state `pend`. */
  function Commits(pend: Pending, lines: seq<string>): seq<Commit>
    decreases |lines|
  {
    if |lines| == 0 then []
    else
      var next := NextPending(pend, lines[0]);
      (if IsTagLine(lines[0]) then [] else [Commit(pend, UrlOfLine(CView(lines[0])))])
        + Commits(next, lines[1..])
  }

  /** The playlist `p` with the commits `cs` added one after another. */
  function Insert(p: Playlist, cs: seq<Commit>): Playlist
    decreases |cs|
  {
    if |cs| == 0 then p
    else Insert(NewEntry(p, cs[0].meta.group, cs[0].meta.name, cs[0].meta.logo, cs[0].url), cs[1..])
  }

  function EntryOf(c: Commit): Entry {
    MakeEntry(c.meta.name, c.meta.logo, c.url)
  }

  /** The entries the commits `cs` contribute to the group named `n`, in order. */
  function EntriesFor(cs: seq<Commit>, n: string): seq<Entry>
    decreases |cs|
  {
    if |cs| == 0 then []
    else (if cs[0].meta.group == n then [EntryOf(cs[0])] else []) + EntriesFor(cs[1..], n)
  }

  /** The group each commit targets. */
  function GroupsOf(cs: seq<Commit>): (r: seq<string>)
    ensures |r| == |cs| && forall i :: 0 <= i < |cs| ==> r[i] == cs[i].meta.group
  {
    seq(|cs|, i requires 0 <= i < |cs| => cs[i].meta.group)
  }

  /** `xs` without repetitions, each element kept at its first occurrence. */
  function Dedup(xs: seq<string>): seq<string>
    decreases |xs|
  {
    if |xs| == 0 then []
    else
      var init := xs[..|xs| - 1];
      if xs[|xs| - 1] in init then Dedup(init) else Dedup(init) + [xs[|xs| - 1]]
  }

  // ---------------------------------------------------------------------------
  // First-seen deduplication

  lemma {:induction false} DedupMembers(xs: seq<string>)
    ensures forall x :: x in Dedup(xs) <==> x in xs
    decreases |xs|
  {
    if |xs| > 0 {
      var init := xs[..|xs| - 1];
      DedupMembers(init);
      assert xs == init + [xs[|xs| - 1]];
    }
  }

  lemma {:induction false} DedupDistinct(xs: seq<string>)
    ensures Distinct(Dedup(xs))
    decreases |xs|
  {
    if |xs| > 0 {
      var init := xs[..|xs| - 1];
      DedupDistinct(init);
      DedupMembers(init);
    }
  }

  // ---------------------------------------------------------------------------
  // The loop is the store filled with the commits

  /** Running the loop commits exactly `Commits` into the store. */
  lemma {:induction false} RunIsInsert(p: Playlist, pend: Pending, t: uint16, lines: seq<string>)
    ensures Run(Parser(p, pend, t), lines).playlist == Insert(p, Commits(pend, lines))
    ensures Run(Parser(p, pend, t), lines).pending == PendingAfter(pend, lines)
    decreases |lines|
  {
    if |lines| > 0 {
      var next := NextPending(pend, lines[0]);
      var rest := Commits(next, lines[1..]);
      assert PendingAfter(pend, lines) == PendingAfter(next, lines[1..]);
      if IsTagLine(lines[0]) {
        assert Step(Parser(p, pend, t), lines[0]) == Parser(p, next, t);
        RunIsInsert(p, next, t, lines[1..]);
        assert Commits(pend, lines) == rest;
      } else {
        var c := Commit(pend, UrlOfLine(CView(lines[0])));
        var q := NewEntry(p, pend.group, pend.name, pend.logo, c.url);
        var t' := (t + 1) % 0x1_0000;
        assert Step(Parser(p, pend, t), lines[0]) == Parser(q, next, t');
        RunIsInsert(q, next, t', lines[1..]);
        assert Commits(pend, lines) == [c] + rest;
        assert ([c] + rest)[0] == c && ([c] + rest)[1..] == rest;
      }
    }
  }

  /** The 16-bit counter alone, stepped over `lines`. */
  function Count16(t: uint16, lines: seq<string>): uint16
    decreases |lines|
  {
    if |lines| == 0 then t
    else Count16(if IsTagLine(lines[0]) then t else Inc16(t), lines[1..])
  }

  lemma {:induction false} RunCount16(st: Parser, lines: seq<string>)
    ensures Run(st, lines).total == Count16(st.total, lines)
    decreases |lines|
  {
    if |lines| > 0 {
      RunCount16(Step(st, lines[0]), lines[1..]);
    }
  }

  /** Wrapping after every increment is wrapping once at the end. */
  lemma {:induction false} Count16Mod(t: uint16, lines: seq<string>)
    ensures Count16(t, lines) == (t + |UrlLines(lines)|) % 0x1_0000
    decreases |lines|
  {
    if |lines| > 0 {
      Count16Mod(if IsTagLine(lines[0]) then t else Inc16(t), lines[1..]);
    }
  }

  lemma {:induction false} CommitsCount(pend: Pending, lines: seq<string>)
    ensures |Commits(pend, lines)| == |UrlLines(lines)|
    decreases |lines|
  {
    if |lines| > 0 {
      CommitsCount(NextPending(pend, lines[0]), lines[1..]);
    }
  }

  /** The k-th commit carries the URL of the k-th line not starting with `#`. */
  lemma {:induction false} CommitUrls(pend: Pending, lines: seq<string>)
    ensures |Commits(pend, lines)| == |UrlLines(lines)|
    ensures forall k :: 0 <= k < |UrlLines(lines)| ==>
      Commits(pend, lines)[k].url == UrlOfLine(CView(UrlLines(lines)[k]))
    decreases |lines|
  {
    if |lines| > 0 {
      var next := NextPending(pend, lines[0]);
      CommitUrls(next, lines[1..]);
      if !IsTagLine(lines[0]) {
        var cs := Commits(pend, lines);
        var us := UrlLines(lines);
        assert cs == [Commit(pend, UrlOfLine(CView(lines[0])))] + Commits(next, lines[1..]);
        assert us == [lines[0]] + UrlLines(lines[1..]);
        forall k | 0 <= k < |us|
          ensures cs[k].url == UrlOfLine(CView(us[k]))
        {
          if k > 0 {
            assert cs[k] == Commits(next, lines[1..])[k - 1];
            assert us[k] == UrlLines(lines[1..])[k - 1];
          }
        }
      }
    }
  }

  /** Commits split with the lines: the second half starts from the pending state the first half leaves. */
  lemma {:induction false} CommitsAppend(pend: Pending, a: seq<string>, b: seq<string>)
    ensures Commits(pend, a + b) == Commits(pend, a) + Commits(PendingAfter(pend, a), b)
    ensures PendingAfter(pend, a + b) == PendingAfter(PendingAfter(pend, a), b)
    decreases |a|
  {
    if |a| > 0 {
      assert (a + b)[0] == a[0];
      assert (a + b)[1..] == a[1..] + b;
      CommitsAppend(NextPending(pend, a[0]), a[1..], b);
    } else {
      assert a + b == b;
    }
  }

  // ---------------------------------------------------------------------------
  // Pending state

  /** A URL line neither resets nor changes the pending state, so consecutive URL lines share metadata. */
  lemma {:induction false} ConsecutiveUrlLinesShareMetadata(pend: Pending, u1: string, u2: string, rest: seq<string>)
    requires !IsTagLine(u1) && !IsTagLine(u2)
    ensures |Commits(pend, [u1, u2] + rest)| >= 2
    ensures Commits(pend, [u1, u2] + rest)[0].meta == pend
    ensures Commits(pend, [u1, u2] + rest)[1].meta == pend
  {
    var lines := [u1, u2] + rest;
    assert lines[0] == u1 && lines[1..] == [u2] + rest;
    assert ([u2] + rest)[0] == u2 && ([u2] + rest)[1..] == rest;
  }

  /** The lines hold no directive that matches. */
  predicate NoMatchingDirective(lines: seq<string>) {
    forall i :: 0 <= i < |lines| ==> !IsTagLine(lines[i]) || MatchExtinf(CView(lines[i])).None?
  }

  /** Until a directive matches, pending state is unchanged, so every commit uses it as is. */
  lemma {:induction false} NoDirectiveKeepsPending(pend: Pending, lines: seq<string>)
    requires NoMatchingDirective(lines)
    ensures PendingAfter(pend, lines) == pend
    ensures forall k :: 0 <= k < |Commits(pend, lines)| ==> Commits(pend, lines)[k].meta == pend
    decreases |lines|
  {
    if |lines| > 0 {
      assert NoMatchingDirective(lines[1..]) by {
        forall i | 0 <= i < |lines[1..]|
          ensures !IsTagLine(lines[1..][i]) || MatchExtinf(CView(lines[1..][i])).None?
        {
          assert lines[1..][i] == lines[i + 1];
        }
      }
      NoDirectiveKeepsPending(pend, lines[1..]);
    }
  }

  /** A URL line before any matching directive is stored with empty name, logo and group. */
  lemma {:induction false} UrlBeforeDirectiveUsesDefaults(pre: seq<string>, url: string, post: seq<string>)
    requires NoMatchingDirective(pre) && !IsTagLine(url)
    ensures var cs := Commits(NoDirective, pre + [url] + post);
      |UrlLines(pre)| < |cs| && cs[|UrlLines(pre)|] == Commit(NoDirective, UrlOfLine(CView(url)))
  {
    NoDirectiveKeepsPending(NoDirective, pre);
    CommitsCount(NoDirective, pre);
    CommitsAppend(NoDirective, pre, [url] + post);
    assert pre + [url] + post == pre + ([url] + post);
    var tail := [url] + post;
    assert tail[0] == url && tail[1..] == post;
  }

  /**
    A blank line does not start with `#`: it commits an entry whose URL is the
    newline itself, and the count goes up by one.
  */
  lemma {:induction false} BlankLineCommits(st: Parser)
    ensures Step(st, "\n").total == Inc16(st.total)
    ensures !Overflows(st.playlist, st.pending.group) ==>
      EntriesOf(Step(st, "\n").playlist, st.pending.group)
        == EntriesOf(st.playlist, st.pending.group) + [MakeEntry(st.pending.name, st.pending.logo, "\n")]
  {
    assert CView("\n") == "\n" by {
      assert CView("\n"[1..]) == "";
    }
    assert UrlOfLine("\n") == "\n";
    var m := st.pending;
    NewEntryEntries(st.playlist, m.group, m.name, m.logo, "\n", m.group);
  }

  /** Only a carriage return ends the URL: a line feed stays in it. */
  lemma {:induction false} UrlKeepsLineFeed(u: string)
    requires '\r' !in u
    ensures UrlOfLine(u + "\n") == u + "\n"
  {
    var line := u + "\n";
    assert forall i :: 0 <= i < |line| ==> line[i] != '\r';
  }

  // ---------------------------------------------------------------------------
  // The store filled with commits

  /** Adding the commits `cs` to `p` one after another never wraps a counter. */
  predicate NoWrap(p: Playlist, cs: seq<Commit>)
    decreases |cs|
  {
    |cs| == 0
    || (!Overflows(p, cs[0].meta.group)
        && NoWrap(NewEntry(p, cs[0].meta.group, cs[0].meta.name, cs[0].meta.logo, cs[0].url), cs[1..]))
  }

  /**
    The counters' bound, stated on the commits alone: at most `MaxGroups`
    distinct group names and at most `MaxEntries` commits to any one group.
  */
  ghost predicate FitsCounters(cs: seq<Commit>) {
    |Dedup(GroupsOf(cs))| <= MaxGroups && forall n :: |EntriesFor(cs, n)| <= MaxEntries
  }

  lemma {:induction false} InsertSnoc(p: Playlist, cs: seq<Commit>, c: Commit)
    ensures Insert(p, cs + [c]) == NewEntry(Insert(p, cs), c.meta.group, c.meta.name, c.meta.logo, c.url)
    decreases |cs|
  {
    if |cs| > 0 {
      assert (cs + [c])[0] == cs[0];
      assert (cs + [c])[1..] == cs[1..] + [c];
      InsertSnoc(NewEntry(p, cs[0].meta.group, cs[0].meta.name, cs[0].meta.logo, cs[0].url), cs[1..], c);
    } else {
      assert (cs + [c])[1..] == [];
    }
  }

  /** One more commit keeps clear of a wrap exactly when the fill so far did and the commit does not wrap. */
  lemma {:induction false} NoWrapSnoc(p: Playlist, cs: seq<Commit>, c: Commit)
    ensures NoWrap(p, cs + [c]) <==> NoWrap(p, cs) && !Overflows(Insert(p, cs), c.meta.group)
    decreases |cs|
  {
    if |cs| > 0 {
      assert (cs + [c])[0] == cs[0];
      assert (cs + [c])[1..] == cs[1..] + [c];
      NoWrapSnoc(NewEntry(p, cs[0].meta.group, cs[0].meta.name, cs[0].meta.logo, cs[0].url), cs[1..], c);
    } else {
      assert (cs + [c])[1..] == [];
    }
  }

  /** One commit that does not wrap a counter adds its entry to its own group only. */
  lemma {:induction false} InsertOneEntries(p: Playlist, c: Commit, n: string)
    requires !Overflows(p, c.meta.group)
    ensures EntriesOf(NewEntry(p, c.meta.group, c.meta.name, c.meta.logo, c.url), n)
         == EntriesOf(p, n) + (if c.meta.group == n then [EntryOf(c)] else [])
  {
    NewEntryEntries(p, c.meta.group, c.meta.name, c.meta.logo, c.url, n);
  }

  /** Each group receives exactly the commits that target it, in commit order. */
  lemma {:induction false} InsertEntries(p: Playlist, cs: seq<Commit>, n: string)
    requires NoWrap(p, cs)
    ensures EntriesOf(Insert(p, cs), n) == EntriesOf(p, n) + EntriesFor(cs, n)
    decreases |cs|
  {
    if |cs| > 0 {
      var c := cs[0];
      var q := NewEntry(p, c.meta.group, c.meta.name, c.meta.logo, c.url);
      var head := if c.meta.group == n then [EntryOf(c)] else [];
      assert !Overflows(p, c.meta.group) && NoWrap(q, cs[1..]);
      InsertOneEntries(p, c, n);
      InsertEntries(q, cs[1..], n);
      assert Insert(p, cs) == Insert(q, cs[1..]);
      assert EntriesFor(cs, n) == head + EntriesFor(cs[1..], n);
      AppendAssoc(EntriesOf(p, n), head, EntriesFor(cs[1..], n));
    }
  }

  /** Associativity of concatenation; a lemma so that `InsertEntries` need not prove it among its other facts. */
  lemma {:induction false} AppendAssoc<T>(a: seq<T>, b: seq<T>, c: seq<T>)
    ensures (a + b) + c == a + (b + c)
  {
  }

  /** One more commit after a fill of the empty store appends its group name exactly when it is new. */
  lemma {:induction false} InsertSnocNames(init: seq<Commit>, c: Commit)
    requires NoWrap(EmptyPlaylist, init) && !Overflows(Insert(EmptyPlaylist, init), c.meta.group)
    ensures var names := Names(Insert(EmptyPlaylist, init));
      Names(Insert(EmptyPlaylist, init + [c]))
        == if c.meta.group in names then names else names + [c.meta.group]
  {
    InsertSnoc(EmptyPlaylist, init, c);
    NewEntryNames(Insert(EmptyPlaylist, init), c.meta.group, c.meta.name, c.meta.logo, c.url);
  }

  /** A fill of the empty store that never wraps does not wrap on its last commit either. */
  lemma {:induction false} NoWrapLast(cs: seq<Commit>)
    requires |cs| > 0 && NoWrap(EmptyPlaylist, cs)
    ensures NoWrap(EmptyPlaylist, cs[..|cs| - 1])
    ensures !Overflows(Insert(EmptyPlaylist, cs[..|cs| - 1]), cs[|cs| - 1].meta.group)
  {
    assert cs == cs[..|cs| - 1] + [cs[|cs| - 1]];
    NoWrapSnoc(EmptyPlaylist, cs[..|cs| - 1], cs[|cs| - 1]);
  }

  /** The last group name of the commits is appended to the first-seen list exactly when it is new. */
  lemma {:induction false} DedupLastGroup(cs: seq<Commit>)
    requires |cs| > 0
    ensures var before := Dedup(GroupsOf(cs[..|cs| - 1]));
      var g := cs[|cs| - 1].meta.group;
      Dedup(GroupsOf(cs)) == if g in before then before else before + [g]
  {
    var gs := GroupsOf(cs);
    assert gs[..|gs| - 1] == GroupsOf(cs[..|cs| - 1]);
    DedupMembers(gs[..|gs| - 1]);
  }

  /** Filling the empty store creates the groups in the order their names are first seen. */
  lemma {:induction false} InsertNames(cs: seq<Commit>)
    requires NoWrap(EmptyPlaylist, cs)
    ensures Names(Insert(EmptyPlaylist, cs)) == Dedup(GroupsOf(cs))
    decreases |cs|
  {
    if |cs| > 0 {
      NoWrapLast(cs);
      var init := cs[..|cs| - 1];
      var c := cs[|cs| - 1];
      InsertSnocNames(init, c);
      assert init + [c] == cs;
      InsertNames(init);
      DedupLastGroup(cs);
    }
  }

  lemma {:induction false} InsertCount(p: Playlist, cs: seq<Commit>)
    requires NoWrap(p, cs)
    ensures TotalEntries(Insert(p, cs).groups) == TotalEntries(p.groups) + |cs|
    decreases |cs|
  {
    if |cs| > 0 {
      var c := cs[0];
      NewEntryCount(p, c.meta.group, c.meta.name, c.meta.logo, c.url);
      InsertCount(NewEntry(p, c.meta.group, c.meta.name, c.meta.logo, c.url), cs[1..]);
    }
  }

  lemma {:induction false} EntriesForSnoc(cs: seq<Commit>, c: Commit, n: string)
    ensures EntriesFor(cs + [c], n) == EntriesFor(cs, n) + (if c.meta.group == n then [EntryOf(c)] else [])
    decreases |cs|
  {
    if |cs| > 0 {
      assert (cs + [c])[0] == cs[0];
      assert (cs + [c])[1..] == cs[1..] + [c];
      EntriesForSnoc(cs[1..], c, n);
    } else {
      assert (cs + [c])[1..] == [];
    }
  }

  /** Commits within the counters' bound fill the empty store without a wrap. */
  lemma {:induction false} FitsCountersNoWrap(cs: seq<Commit>)
    requires FitsCounters(cs)
    ensures NoWrap(EmptyPlaylist, cs)
    decreases |cs|
  {
    if |cs| > 0 {
      var init := cs[..|cs| - 1];
      var c := cs[|cs| - 1];
      var g := c.meta.group;
      assert cs == init + [c];
      assert GroupsOf(cs) == GroupsOf(init) + [g];
      assert FitsCounters(init) by {
        forall n ensures |EntriesFor(init, n)| <= MaxEntries {
          EntriesForSnoc(init, c, n);
          assert |EntriesFor(cs, n)| <= MaxEntries;
        }
      }
      FitsCountersNoWrap(init);
      var q := Insert(EmptyPlaylist, init);
      InsertNames(init);
      InsertEntries(EmptyPlaylist, init, g);
      EntriesForSnoc(init, c, g);
      assert |EntriesFor(cs, g)| <= MaxEntries;
      DedupMembers(GroupsOf(init));
      assert !Overflows(q, g);
      NoWrapSnoc(EmptyPlaylist, init, c);
    }
  }

  // ---------------------------------------------------------------------------
  // Counter wrap-around

  /**
    A URL line for a new group when `MaxGroups` groups exist wraps the group
    counter: the playlist then shows no group at all, yet the line is counted.
  */
  lemma {:induction false} GroupCounterWrap(st: Parser, line: string)
    requires !IsTagLine(line) && |st.playlist.groups| == MaxGroups
    requires st.pending.group !in Names(st.playlist)
    ensures Step(st, line).playlist == EmptyPlaylist
    ensures Step(st, line).total == Inc16(st.total)
  {
  }

  /**
    A URL line for a group that already shows `MaxEntries` entries wraps that
    group's counter: the group then shows none, the others are unchanged.
  */
  lemma {:induction false} EntryCounterWrap(st: Parser, line: string, k: nat)
    requires !IsTagLine(line) && k < |st.playlist.groups|
    requires st.playlist.groups[k].name == st.pending.group && |st.playlist.groups[k].entries| == MaxEntries
    requires forall j :: 0 <= j < k ==> st.playlist.groups[j].name != st.pending.group
    ensures Step(st, line).playlist.groups == st.playlist.groups[k := Group(st.pending.group, [])]
    ensures Step(st, line).total == Inc16(st.total)
  {
    FindGroupIs(st.playlist, st.pending.group, k);
  }

  // ---------------------------------------------------------------------------
  // The playlist read from a file

  /**
    The groups `read_playlist` creates: one per distinct group name the
    commits use, in the order the names are first seen, never two alike.
    The order holds as long as no counter wraps; distinctness always.
  */
  lemma {:induction false} ReadLinesGroups(lines: seq<string>)
    ensures FitsCounters(Commits(NoDirective, lines)) ==>
      Names(ReadLines(lines).0) == Dedup(GroupsOf(Commits(NoDirective, lines)))
    ensures Distinct(Names(ReadLines(lines).0))
  {
    var cs := Commits(NoDirective, lines);
    RunIsInsert(EmptyPlaylist, NoDirective, 0, lines);
    if FitsCounters(cs) {
      FitsCountersNoWrap(cs);
      InsertNames(cs);
    }
  }

  /** Each group holds exactly the entries committed to it, in line order, as long as no counter wraps. */
  lemma {:induction false} ReadLinesEntries(lines: seq<string>, n: string)
    ensures FitsCounters(Commits(NoDirective, lines)) ==>
      EntriesOf(ReadLines(lines).0, n) == EntriesFor(Commits(NoDirective, lines), n)
  {
    var cs := Commits(NoDirective, lines);
    RunIsInsert(EmptyPlaylist, NoDirective, 0, lines);
    if FitsCounters(cs) {
      FitsCountersNoWrap(cs);
      InsertEntries(EmptyPlaylist, cs, n);
    }
  }

  /**
    One entry per line not starting with `#`, blank lines included, as long as
    no counter wraps. The returned 16-bit count is always that number modulo
    2^16: every URL line is counted, wrapped into sight or not.
  */
  lemma {:induction false} ReadLinesCount(lines: seq<string>)
    ensures FitsCounters(Commits(NoDirective, lines)) ==>
      TotalEntries(ReadLines(lines).0.groups) == |UrlLines(lines)|
    ensures ReadLines(lines).1 == |UrlLines(lines)| % 0x1_0000
  {
    var cs := Commits(NoDirective, lines);
    RunIsInsert(EmptyPlaylist, NoDirective, 0, lines);
    if FitsCounters(cs) {
      FitsCountersNoWrap(cs);
      InsertCount(EmptyPlaylist, cs);
      CommitsCount(NoDirective, lines);
    }
    RunCount16(Start, lines);
    Count16Mod(0, lines);
  }

  // ---------------------------------------------------------------------------
  // A worked example: one directive line and one URL line

  /** The arguments of the example directive: a logo attribute, then a group attribute. */
  const CnnLogo: string := "http://x/l.png"
  const CnnPre: string := LogoKey + (CnnLogo + "\" ")
  const CnnArgs: string := CnnPre + (GroupKey + ("News" + "\""))
  const CnnDirective: string := Compose(" ", CnnArgs, "CNN", "\n")
  const CnnUrl: string := "http://stream/cnn.ts\n"

  lemma {:induction false} CnnArgsFacts()
    ensures '\0' !in CnnArgs && ',' !in CnnArgs && !IsSpace(CnnArgs[0])
  {
    assert CnnArgs[0] == LogoKey[0];
  }

  /** The example's first line is a directive with those arguments and the name "CNN". */
  lemma {:induction false} CnnDirectiveMatches()
    ensures IsTagLine(CnnDirective)
    ensures MatchExtinf(CView(CnnDirective)) == Some(Directive(CnnArgs, "CNN"))
  {
    CnnArgsFacts();
    assert '\0' !in CnnDirective;
    CViewWhole(CnnDirective);
    MatchExtinfComplete(" ", CnnArgs, "CNN", "\n");
    assert CnnDirective[0] == Tag[0];
  }

  lemma {:induction false} CnnLogoAttr()
    ensures Attribute(CnnArgs, LogoKey) == Value(CnnLogo)
  {
    var tail := "\" " + (GroupKey + ("News" + "\""));
    assert CnnArgs == LogoKey + (CnnLogo + tail);
    AttributeAtFront(LogoKey, CnnLogo, tail);
  }

  /** The logo attribute holds no "gr", so the group key can only start after it. */
  lemma {:induction false} CnnPreLacksGroupKey()
    ensures forall j :: 0 <= j < |CnnPre| ==>
      !((CnnPre + [GroupKey[0]])[j] == GroupKey[0] && (CnnPre + [GroupKey[0]])[j + 1] == GroupKey[1])
  {
    var w := CnnPre + [GroupKey[0]];
    assert w == "tvg-logo=\"http://x/l.png\" g";
    assert forall j :: 0 <= j < |CnnPre| ==> !(w[j] == GroupKey[0] && w[j + 1] == GroupKey[1]);
  }

  lemma {:induction false} CnnGroupAttr()
    ensures Attribute(CnnArgs, GroupKey) == Value("News")
  {
    CnnPreLacksGroupKey();
    NoPairNoMatch(CnnPre, GroupKey);
    AttributeAfter(CnnPre, GroupKey, "News", "\"");
  }

  /** The directive sets the name, and takes the logo and group from its attributes. */
  lemma {:induction false} CnnAttributes()
    ensures ApplyDirective(NoDirective, Directive(CnnArgs, "CNN")) == Pending("CNN", CnnLogo, "News")
  {
    CnnLogoAttr();
    CnnGroupAttr();
  }

  /** The example's second line is a URL line stored as it is, newline and all. */
  lemma {:induction false} CnnUrlLine()
    ensures !IsTagLine(CnnUrl)
    ensures UrlOfLine(CView(CnnUrl)) == CnnUrl
  {
    assert '\0' !in CnnUrl && '\r' !in CnnUrl;
    CViewWhole(CnnUrl);
  }

  /** The metadata after the directive, and the playlist after the URL line. */
  const CnnPending := Pending("CNN", CnnLogo, "News")
  const CnnPlaylist := Playlist([Group("News", [Entry(CnnUrl, "CNN", CnnLogo, None)])])

  lemma {:induction false} CnnFirstStep()
    ensures Step(Start, CnnDirective) == Parser(EmptyPlaylist, CnnPending, 0)
  {
    CnnDirectiveMatches();
    CnnAttributes();
  }

  lemma {:induction false} CnnSecondStep()
    ensures Step(Parser(EmptyPlaylist, CnnPending, 0), CnnUrl) == Parser(CnnPlaylist, CnnPending, 1)
  {
    CnnUrlLine();
    NewEntryIntoEmpty("News", "CNN", CnnLogo, CnnUrl);
  }

  lemma {:induction false} CnnRunFirst()
    ensures Run(Start, [CnnDirective, CnnUrl]) == Run(Parser(EmptyPlaylist, CnnPending, 0), [CnnUrl])
  {
    CnnFirstStep();
    assert [CnnDirective, CnnUrl][1..] == [CnnUrl];
  }

  lemma {:induction false} CnnRunSecond()
    ensures Run(Parser(EmptyPlaylist, CnnPending, 0), [CnnUrl]) == Parser(CnnPlaylist, CnnPending, 1)
  {
    var st := Parser(EmptyPlaylist, CnnPending, 0);
    CnnSecondStep();
    assert [CnnUrl][1..] == [];
    assert Run(st, [CnnUrl]) == Run(Step(st, CnnUrl), []);
  }

  /**
    The two-line playlist `#EXTINF:-1 tvg-logo="http://x/l.png"
    group-title="News",CNN` followed by `http://stream/cnn.ts`: one group
    "News" holding one entry named "CNN" with that logo, and a count of 1. The
    stored URL keeps the line's trailing newline.
  */
  lemma {:induction false} CnnScenario()
    ensures ReadLines([CnnDirective, CnnUrl]) == (CnnPlaylist, 1)
  {
    CnnRunFirst();
    CnnRunSecond();
  }

}
