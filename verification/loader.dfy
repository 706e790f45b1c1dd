/**
  The line loop of `read_playlist`, as a left fold over the lines `getline`
  returns. The fold carries the playlist under construction, the pending
  name/logo/group taken from the latest matching `#EXTINF` line, and the
  16-bit count of committed entries.
*/
module Loader {
  import opened Wrappers
  import opened CString
  import opened Scan
  import opened Store

  /** The width of `read_playlist`'s `uint16_t total_entries`. */
  type uint16 = x: int | 0 <= x < 0x1_0000

  /** `total_entries++` on a 16-bit counter: 65535 wraps around to 0. */
  function Inc16(t: uint16): (r: uint16)
    ensures r == (t + 1) % 0x1_0000
  {
    if t == 0xFFFF then 0 else t + 1
  }

  /** The `name`, `logo` and `group` buffers carried from a directive line to the URL lines after it. */
  datatype Pending = Pending(name: string, logo: string, group: string)

  /** The buffers' contents before any directive: all three empty. */
  const NoDirective := Pending("", "", "")

  const LogoKey: string := "tvg-logo=\""
  const GroupKey: string := "group-title=\""

  /**
    The attribute handling after a directive matched. The name is always
    replaced. A logo attribute replaces the logo, an empty one keeps it, a
    missing one clears it. A group attribute replaces the group, an empty one
    keeps it; a missing one keeps the group and copies it over the logo.
  */
  function ApplyDirective(p: Pending, d: Directive): (r: Pending)
    ensures r.name == d.name
    ensures Attribute(d.args, GroupKey).Value? ==> r.group == Attribute(d.args, GroupKey).v
    ensures !Attribute(d.args, GroupKey).Value? ==> r.group == p.group
    ensures Attribute(d.args, GroupKey).Absent? ==> r.logo == p.group
    ensures !Attribute(d.args, GroupKey).Absent? ==>
      && (Attribute(d.args, LogoKey).Absent? ==> r.logo == "")
      && (Attribute(d.args, LogoKey).Blank? ==> r.logo == p.logo)
      && (Attribute(d.args, LogoKey).Value? ==> r.logo == Attribute(d.args, LogoKey).v)
  {
    var logo :=
      match Attribute(d.args, LogoKey)
      case Absent => ""
      case Blank => p.logo
      case Value(v) => v;
    match Attribute(d.args, GroupKey)
    case Absent => Pending(d.name, p.group, p.group)
    case Blank => Pending(d.name, logo, p.group)
    case Value(v) => Pending(d.name, logo, v)
  }

  /**
    The URL stored for a URL line: the loop ends the C string at the first
    carriage return. Its second test is for `'\r'` again, so a newline is kept.
  */
  function UrlOfLine(line: string): (url: string)
    ensures '\r' !in url
    ensures |url| <= |line| && url == line[..|url|]
    ensures |url| < |line| ==> line[|url|] == '\r'
  {
    SpanNot(line, {'\r'})
  }

  /**
    The test `line[0] == '#'` on the raw `getline` buffer. It agrees with the
    test on the C string the buffer holds: a NUL ends that string but is no `#`.
  */
  function IsTagLine(line: string): (r: bool)
    ensures r <==> |CView(line)| > 0 && CView(line)[0] == '#'
  {
    |line| > 0 && line[0] == '#'
  }

  /** The state of the line loop. */
  datatype Parser = Parser(playlist: Playlist, pending: Pending, total: uint16)

  /** The loop's state before the first line: `read_playlist` starts from an empty playlist. */
  const Start := Parser(EmptyPlaylist, NoDirective, 0)

  /**
    How one line changes the pending state: only a `#` line whose directive
    matches does; a URL line leaves it as it is, it is never reset.
  */
  function NextPending(pend: Pending, line: string): (r: Pending)
    ensures IsTagLine(line) && MatchExtinf(CView(line)).Some? ==>
      r == ApplyDirective(pend, MatchExtinf(CView(line)).value)
    ensures !IsTagLine(line) || MatchExtinf(CView(line)).None? ==> r == pend
  {
    if !IsTagLine(line) then pend
    else
      match MatchExtinf(CView(line))
      case None => pend
      case Some(d) => ApplyDirective(pend, d)
  }

  /**
    One iteration of the line loop. A `#` line never touches the playlist or the
    count; any other line commits one entry from the pending state, with the
    URL cut from the line, and adds one to the 16-bit count.
  */
  function Step(st: Parser, line: string): (r: Parser)
    ensures r.pending == NextPending(st.pending, line)
    ensures IsTagLine(line) ==> r.playlist == st.playlist && r.total == st.total
    ensures !IsTagLine(line) ==> r.total == Inc16(st.total)
    ensures !IsTagLine(line) && !Overflows(st.playlist, st.pending.group) ==>
      TotalEntries(r.playlist.groups) == TotalEntries(st.playlist.groups) + 1
    ensures Distinct(Names(st.playlist)) ==> Distinct(Names(r.playlist))
    ensures Bounded(st.playlist) ==> Bounded(r.playlist)
  {
    if IsTagLine(line) then st.(pending := NextPending(st.pending, line))
    else
      var p := st.pending;
      var url := UrlOfLine(CView(line));
      NewEntryCount(st.playlist, p.group, p.name, p.logo, url);
      var q := NewEntry(st.playlist, p.group, p.name, p.logo, url);
      assert Distinct(Names(st.playlist)) ==> Distinct(Names(q)) by {
        if Distinct(Names(st.playlist)) {
          NewEntryKeepsNamesDistinct(st.playlist, p.group, p.name, p.logo, url);
        }
      }
      assert Bounded(st.playlist) ==> Bounded(q) by {
        if Bounded(st.playlist) {
          NewEntryKeepsBounded(st.playlist, p.group, p.name, p.logo, url);
        }
      }
      Parser(q, p, Inc16(st.total))
  }

  /**
    The line loop from state `st` over `lines`. The store's invariants hold
    throughout: group names stay distinct and no counter exceeds its width.
    Lines that all start with `#` leave the playlist and the count alone.
  */
  function Run(st: Parser, lines: seq<string>): (r: Parser)
    ensures Distinct(Names(st.playlist)) ==> Distinct(Names(r.playlist))
    ensures Bounded(st.playlist) ==> Bounded(r.playlist)
    ensures (forall i :: 0 <= i < |lines| ==> IsTagLine(lines[i])) ==>
      r.playlist == st.playlist && r.total == st.total
    decreases |lines|
  {
    if |lines| == 0 then st else Run(Step(st, lines[0]), lines[1..])
  }

  /** The lines that commit an entry: those not starting with `#`, blank ones included. */
  function UrlLines(lines: seq<string>): (r: seq<string>)
    ensures |r| <= |lines|
    ensures forall i :: 0 <= i < |r| ==> !IsTagLine(r[i])
  {
    if |lines| == 0 then []
    else (if IsTagLine(lines[0]) then [] else [lines[0]]) + UrlLines(lines[1..])
  }

  /**
    `read_playlist` once the file is open: the playlist built and the count it
    returns. Its group names are distinct and its lengths fit the counters.
  */
  function ReadLines(lines: seq<string>): (r: (Playlist, uint16))
    ensures Distinct(Names(r.0)) && Bounded(r.0)
    ensures (forall i :: 0 <= i < |lines| ==> IsTagLine(lines[i])) ==> r == (EmptyPlaylist, 0)
  {
    var st := Run(Start, lines);
    (st.playlist, st.total)
  }

  /**
    `read_playlist(filename, playlist)`. `file` is the file's contents, or None
    when `fopen` fails, in which case the playlist is empty and the count zero.
  */
  function ReadPlaylist(file: Option<string>): (r: (Playlist, uint16))
    ensures file.None? ==> r == (EmptyPlaylist, 0)
    ensures file == Some("") ==> r == (EmptyPlaylist, 0)
  {
    match file
    case None => (EmptyPlaylist, 0)
    case Some(text) => ReadLines(GetLines(text))
  }

}
