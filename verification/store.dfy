/**
  The in-memory playlist: an ordered sequence of named groups, each an ordered
  sequence of channel entries. Groups are added only by the find-or-create step
  of `NewEntry`, so their names stay pairwise distinct in first-seen order.

  The sequences are what the program can see of its arrays: the first
  `num_groups` groups and each group's first `num_entries` entries. Both
  counters are unsigned and narrow (`uint8_t`, `uint16_t`), and `++` on them
  wraps around to 0, after which the earlier elements are out of sight and the
  next addition overwrites slot 0.
*/
module Store {
  import opened Wrappers

  /** A decoded channel logo, as an opaque handle owned by its entry. */
  datatype Pixbuf = Pixbuf(handle: nat)

  /** One channel; `thumbnail` is the entry's `private_data`, the memoised logo. */
  datatype Entry = Entry(url: string, name: string, logo: string, thumbnail: Option<Pixbuf>)

  datatype Group = Group(name: string, entries: seq<Entry>)

  datatype Playlist = Playlist(groups: seq<Group>)

  const EmptyPlaylist := Playlist([])

  /** The largest value of `uint8_t num_groups`; one more group wraps it to 0. */
  const MaxGroups := 0xFF

  /** The largest value of `uint16_t num_entries`; one more entry wraps it to 0. */
  const MaxEntries := 0xFFFF

  /** What the two counters can hold: the visible lengths never exceed them. */
  predicate Bounded(p: Playlist) {
    |p.groups| <= MaxGroups && forall i :: 0 <= i < |p.groups| ==> |p.groups[i].entries| <= MaxEntries
  }

  /** The group names in playlist order. */
  function Names(p: Playlist): (r: seq<string>)
    ensures |r| == |p.groups| && forall i :: 0 <= i < |r| ==> r[i] == p.groups[i].name
  {
    seq(|p.groups|, i requires 0 <= i < |p.groups| => p.groups[i].name)
  }

  predicate Distinct(xs: seq<string>) {
    forall i, j :: 0 <= i < j < |xs| ==> xs[i] != xs[j]
  }

  /** The loop of `playlist_find_group`, from group `from` on. */
  function FindGroupFrom(groups: seq<Group>, name: string, from: nat): (r: Option<nat>)
    requires from <= |groups|
    ensures r.Some? ==> from <= r.value < |groups| && groups[r.value].name == name
    ensures r.Some? ==> forall j :: from <= j < r.value ==> groups[j].name != name
    ensures r.None? ==> forall j :: from <= j < |groups| ==> groups[j].name != name
    decreases |groups| - from
  {
    if from == |groups| then None
    else if groups[from].name == name then Some(from)
    else FindGroupFrom(groups, name, from + 1)
  }

  /** `playlist_find_group`: the index of the first group whose name is exactly `name`, if any. */
  function FindGroup(p: Playlist, name: string): (r: Option<nat>)
    ensures r.Some? ==> r.value < |p.groups| && p.groups[r.value].name == name
    ensures r.Some? ==> forall j :: 0 <= j < r.value ==> p.groups[j].name != name
    ensures r.None? <==> name !in Names(p)
  {
    FindGroupFrom(p.groups, name, 0)
  }

  /** The first group named `name` is the one `FindGroup` returns. */
  lemma {:induction false} FindGroupIs(p: Playlist, name: string, k: nat)
    requires k < |p.groups| && p.groups[k].name == name
    requires forall j :: 0 <= j < k ==> p.groups[j].name != name
    ensures FindGroup(p, name) == Some(k)
  {
    assert Names(p)[k] == name;
  }

  /**
    `playlist_new_group`: one empty group named `name` added after all existing
    groups. When there are already `MaxGroups` groups, the new one still fills
    the slot after them, but `num_groups` wraps to 0: no group is visible.
  */
  function NewGroup(p: Playlist, name: string): (r: Playlist)
    ensures |p.groups| == MaxGroups ==> r == EmptyPlaylist
    ensures |p.groups| != MaxGroups ==>
      && |r.groups| == |p.groups| + 1
      && r.groups[..|p.groups|] == p.groups
      && r.groups[|p.groups|].name == name && r.groups[|p.groups|].entries == []
    ensures |p.groups| != MaxGroups && name !in Names(p) ==> FindGroup(r, name) == Some(|p.groups|)
  {
    if |p.groups| == MaxGroups then EmptyPlaylist
    else
      var r := Playlist(p.groups + [Group(name, [])]);
      assert name !in Names(p) ==> FindGroup(r, name) == Some(|p.groups|) by {
        if name !in Names(p) {
          assert forall j :: 0 <= j < |p.groups| ==> r.groups[j].name == Names(p)[j];
          FindGroupIs(r, name, |p.groups|);
        }
      }
      r
  }

  /** The entry `group_new_entry` builds: copies of the three strings, no logo decoded yet. */
  function MakeEntry(name: string, logo: string, url: string): Entry {
    Entry(url, name, logo, None)
  }

  /**
    `group_new_entry`: the entry for `name`, `logo`, `url` added after the
    group's other entries. When the group already holds `MaxEntries` entries,
    the new one is written after them but `num_entries` wraps to 0: the group
    shows no entries.
  */
  function GroupNewEntry(g: Group, name: string, logo: string, url: string): (r: Group)
    ensures r.name == g.name
    ensures |g.entries| == MaxEntries ==> r.entries == []
    ensures |g.entries| != MaxEntries ==>
      && |r.entries| == |g.entries| + 1 && r.entries[..|g.entries|] == g.entries
      && r.entries[|g.entries|] == Entry(url, name, logo, None)
  {
    if |g.entries| == MaxEntries then Group(g.name, [])
    else Group(g.name, g.entries + [MakeEntry(name, logo, url)])
  }

  /** Adding an entry to the group named `group` wraps one of the two counters. */
  predicate Overflows(p: Playlist, group: string) {
    match FindGroup(p, group)
    case Some(k) => |p.groups[k].entries| == MaxEntries
    case None => |p.groups| == MaxGroups
  }

  /**
    `playlist_new_entry`: the entry goes to the end of the first group named
    `group`; the group is created at the end of the playlist only when no
    group of that name exists. `NewEntryPlaces` states where the entry lands.
  */
  function NewEntry(p: Playlist, group: string, name: string, logo: string, url: string): Playlist {
    match FindGroup(p, group)
    case Some(k) => Playlist(p.groups[k := GroupNewEntry(p.groups[k], name, logo, url)])
    case None =>
      if |p.groups| == MaxGroups then NewGroup(p, group)
      else
        var q := NewGroup(p, group);
        Playlist(q.groups[|p.groups| := GroupNewEntry(q.groups[|p.groups|], name, logo, url)])
  }

  /**
    Where `NewEntry` puts the entry: at the end of the first group named
    `group`, created at the end of the playlist only when missing, with every
    other group left as it was. When a counter wraps, the entry is written
    where nothing shows it: a new group past `MaxGroups` leaves the playlist
    showing no group, and a group past `MaxEntries` shows no entry.
  */
  lemma {:induction false} NewEntryPlaces(p: Playlist, group: string, name: string, logo: string, url: string)
    ensures var r := NewEntry(p, group, name, logo, url);
      && (FindGroup(p, group).None? && |p.groups| == MaxGroups ==> r == EmptyPlaylist)
      && (FindGroup(p, group).Some? ==> |r.groups| == |p.groups|)
      && (var k := FindGroup(p, group);
          k.Some? && |p.groups[k.value].entries| == MaxEntries ==>
            r.groups == p.groups[k.value := Group(group, [])])
    ensures var r := NewEntry(p, group, name, logo, url);
      !Overflows(p, group) ==>
        && (FindGroup(p, group).None? ==> |r.groups| == |p.groups| + 1)
        && FindGroup(r, group).Some?
        && var k := FindGroup(r, group).value;
        && (FindGroup(p, group).Some? ==> k == FindGroup(p, group).value)
        && (FindGroup(p, group).None? ==> k == |p.groups|)
        && r.groups[k].name == group
        && r.groups[k].entries == EntriesOf(p, group) + [MakeEntry(name, logo, url)]
        && forall j :: 0 <= j < |p.groups| && j != k ==> r.groups[j] == p.groups[j]
  {
    var r := NewEntry(p, group, name, logo, url);
    match FindGroup(p, group)
    case Some(k) =>
      FindGroupIs(r, group, k);
    case None =>
      if |p.groups| != MaxGroups {
        var n := |p.groups|;
        assert forall j :: 0 <= j < n ==> r.groups[j].name == p.groups[j].name;
        FindGroupIs(r, group, n);
      }
  }

  /** The first entry of an empty playlist creates the first group, holding just that entry. */
  lemma {:induction false} NewEntryIntoEmpty(group: string, name: string, logo: string, url: string)
    ensures NewEntry(EmptyPlaylist, group, name, logo, url) == Playlist([Group(group, [MakeEntry(name, logo, url)])])
  {
    assert FindGroup(EmptyPlaylist, group) == None;
    assert NewGroup(EmptyPlaylist, group) == Playlist([Group(group, [])]);
  }

  /** The entries of the group named `name`, or none when there is no such group. */
  function EntriesOf(p: Playlist, name: string): seq<Entry> {
    match FindGroup(p, name)
    case Some(k) => p.groups[k].entries
    case None => []
  }

  /** The number of entries over all groups. */
  function TotalEntries(groups: seq<Group>): nat {
    if |groups| == 0 then 0 else |groups[0].entries| + TotalEntries(groups[1..])
  }

  /**
    `NewEntry` renames no group; it only adds the target group at the end when
    it was missing, unless that addition wraps the group counter and leaves no
    group in sight.
  */
  lemma {:induction false} NewEntryNames(p: Playlist, group: string, name: string, logo: string, url: string)
    ensures Names(NewEntry(p, group, name, logo, url))
         == if group in Names(p) then Names(p)
            else if |p.groups| == MaxGroups then []
            else Names(p) + [group]
  {
    var r := NewEntry(p, group, name, logo, url);
    NewEntryPlaces(p, group, name, logo, url);
    if group in Names(p) {
      var k := FindGroup(p, group).value;
      assert forall j :: 0 <= j < |p.groups| ==> r.groups[j].name == p.groups[j].name;
    } else if |p.groups| != MaxGroups {
      assert forall j :: 0 <= j < |p.groups| ==> r.groups[j].name == p.groups[j].name;
    }
  }

  /** Group names stay pairwise distinct: lookup-or-create never adds a second group of the same name. */
  lemma {:induction false} NewEntryKeepsNamesDistinct(p: Playlist, group: string, name: string, logo: string, url: string)
    requires Distinct(Names(p))
    ensures Distinct(Names(NewEntry(p, group, name, logo, url)))
  {
    NewEntryNames(p, group, name, logo, url);
  }

  /** No group or entry count ever exceeds what its counter can hold. */
  lemma {:induction false} NewEntryKeepsBounded(p: Playlist, group: string, name: string, logo: string, url: string)
    requires Bounded(p)
    ensures Bounded(NewEntry(p, group, name, logo, url))
  {
    NewEntryPlaces(p, group, name, logo, url);
  }

  /**
    The new entry lands at the end of the group named `group`; every other
    group's entries are unchanged. When a counter wraps, the target group shows
    no entry, and after a group wrap no group shows any.
  */
  lemma {:induction false} NewEntryEntries(p: Playlist, group: string, name: string, logo: string, url: string, x: string)
    ensures EntriesOf(NewEntry(p, group, name, logo, url), x)
         == if !Overflows(p, group) then EntriesOf(p, x) + (if x == group then [MakeEntry(name, logo, url)] else [])
            else if group in Names(p) && x != group then EntriesOf(p, x)
            else []
  {
    var r := NewEntry(p, group, name, logo, url);
    NewEntryPlaces(p, group, name, logo, url);
    NewEntryNames(p, group, name, logo, url);
    if x != group {
      match FindGroup(p, x)
      case Some(i) =>
        if group in Names(p) || |p.groups| != MaxGroups {
          assert forall j :: 0 <= j < i ==> r.groups[j].name == Names(r)[j];
          assert r.groups[i] == p.groups[i];
          FindGroupIs(r, x, i);
        }
      case None =>
        assert x !in Names(r);
    } else if Overflows(p, group) && group in Names(p) {
      var k := FindGroup(p, group).value;
      assert forall j :: 0 <= j < k ==> r.groups[j].name == Names(r)[j];
      FindGroupIs(r, group, k);
    }
  }
  lemma {:induction false} TotalEntriesAppend(groups: seq<Group>, g: Group)
    ensures TotalEntries(groups + [g]) == TotalEntries(groups) + |g.entries|
  {
    if |groups| > 0 {
      assert (groups + [g])[1..] == groups[1..] + [g];
      TotalEntriesAppend(groups[1..], g);
    }
  }

  lemma {:induction false} TotalEntriesUpdate(groups: seq<Group>, k: nat, g: Group)
    requires k < |groups|
    ensures TotalEntries(groups[k := g]) + |groups[k].entries| == TotalEntries(groups) + |g.entries|
  {
    if k > 0 {
      assert groups[k := g][1..] == groups[1..][k - 1 := g];
      TotalEntriesUpdate(groups[1..], k - 1, g);
    }
  }

  /**
    `NewEntry` adds exactly one entry to the playlist. A wrap of the target
    group's counter hides its `MaxEntries` entries instead, and a wrap of the
    group counter hides every entry.
  */
  lemma {:induction false} NewEntryCount(p: Playlist, group: string, name: string, logo: string, url: string)
    ensures TotalEntries(NewEntry(p, group, name, logo, url).groups)
         == if !Overflows(p, group) then TotalEntries(p.groups) + 1
            else if group in Names(p) then TotalEntries(p.groups) - MaxEntries
            else 0
  {
    var e := MakeEntry(name, logo, url);
    match FindGroup(p, group)
    case Some(k) =>
      TotalEntriesUpdate(p.groups, k, GroupNewEntry(p.groups[k], name, logo, url));
    case None =>
      if |p.groups| != MaxGroups {
        var q := NewGroup(p, group);
        var n := |p.groups|;
        assert q.groups == p.groups + [Group(group, [])];
        assert q.groups[n := GroupNewEntry(q.groups[n], name, logo, url)] == p.groups + [Group(group, [e])];
        TotalEntriesAppend(p.groups, Group(group, [e]));
      }
  }

}
