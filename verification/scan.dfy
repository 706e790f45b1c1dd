/**
  The two C library routines the playlist loader leans on, as pure functions:
  `strstr` and the three `sscanf` conversions it uses. A `%[^set]` conversion
  reads the longest run of characters outside `set` and fails when that run is
  empty; a blank in the format skips any amount of white space, possibly none.
*/
module Scan {
  import opened Wrappers
  import opened CString

  /** The directive prefix matched literally by `"#EXTINF:-1 %[^,],%[^\n\t]"`. */
  const Tag: string := "#EXTINF:-1"

  /** What a blank in a `sscanf` format consumes: the leading white space of `s`. */
  function SkipSpace(s: string): (r: string)
    ensures |r| <= |s| && r == s[|s| - |r|..]
    ensures forall i :: 0 <= i < |s| - |r| ==> IsSpace(s[i])
    ensures |r| > 0 ==> !IsSpace(r[0])
  {
    if |s| > 0 && IsSpace(s[0]) then SkipSpace(s[1..]) else s
  }

  /** The run a `%[^stop]` conversion reads from the front of `s` (it fails when the run is empty). */
  function SpanNot(s: string, stop: set<char>): (r: string)
    ensures |r| <= |s| && r == s[..|r|]
    ensures forall i :: 0 <= i < |r| ==> r[i] !in stop
    ensures |r| < |s| ==> s[|r|] in stop
  {
    if |s| == 0 || s[0] in stop then "" else [s[0]] + SpanNot(s[1..], stop)
  }

  /** `key` occurs in `s` starting at position `i`. */
  predicate MatchAt(s: string, key: string, i: int) {
    0 <= i && i + |key| <= |s| && s[i..i + |key|] == key
  }

  /** `strstr(s, key)`, from position `from` on: the first position where `key` occurs. */
  function FindFrom(s: string, key: string, from: nat): (r: Option<nat>)
    requires from <= |s|
    ensures r.Some? ==> from <= r.value && MatchAt(s, key, r.value)
    ensures r.Some? ==> forall j :: from <= j < r.value ==> !MatchAt(s, key, j)
    ensures r.None? ==> forall j :: from <= j ==> !MatchAt(s, key, j)
    decreases |s| - from
  {
    if MatchAt(s, key, from) then Some(from)
    else if from == |s| then None
    else FindFrom(s, key, from + 1)
  }

  /** `strstr(s, key)`: the position of the first occurrence of `key` in `s`, if any. */
  function FindSubstr(s: string, key: string): (r: Option<nat>)
    ensures r.Some? ==> MatchAt(s, key, r.value)
    ensures r.Some? ==> forall j :: 0 <= j < r.value ==> !MatchAt(s, key, j)
    ensures r.None? <==> forall j :: !MatchAt(s, key, j)
  {
    FindFrom(s, key, 0)
  }

  /** The two strings `sscanf(line, "#EXTINF:-1 %[^,],%[^\n\t]", args, name)` stores when it returns 2. */
  datatype Directive = Directive(args: string, name: string)

  /** The characters that end the display name. */
  const NameStop: set<char> := {'\n', '\t'}

  /**
    The `sscanf` call that recognises a directive line, on the C string `line`.
    Both conversions must read something for it to return 2.
  */
  function MatchExtinf(line: string): (r: Option<Directive>)
    ensures r.Some? ==> |line| >= |Tag| && line[..|Tag|] == Tag
    ensures r.Some? ==> |r.value.args| > 0 && !IsSpace(r.value.args[0]) && ',' !in r.value.args
    ensures r.Some? ==> |r.value.name| > 0 && '\n' !in r.value.name && '\t' !in r.value.name
  {
    if |line| < |Tag| || line[..|Tag|] != Tag then None
    else MatchArgs(SkipSpace(line[|Tag|..]))
  }

  /** The two conversions `%[^,],%[^\n\t]`, applied once the white space after the tag is skipped. */
  function MatchArgs(t: string): (r: Option<Directive>)
    ensures r.Some? ==> |r.value.args| < |t| && r.value.args == t[..|r.value.args|]
    ensures r.Some? ==> |r.value.args| > 0 && ',' !in r.value.args
    ensures r.Some? ==> |r.value.name| > 0 && '\n' !in r.value.name && '\t' !in r.value.name
  {
    var args := SpanNot(t, {','});
    if |args| == 0 then None
    // the `%[^,]` run is maximal, so what follows it is either nothing or the ','
    else if |args| == |t| then None
    else
      var name := SpanNot(t[|args| + 1..], NameStop);
      if |name| == 0 then None else Some(Directive(args, name))
  }

  predicate AllSpace(s: string) {
    forall i :: 0 <= i < |s| ==> IsSpace(s[i])
  }

  /** The text of a directive line cut into the pieces the format names. */
  function Compose(ws: string, args: string, name: string, rest: string): string {
    Tag + (ws + (args + ([','] + (name + rest))))
  }

  /**
    The pieces of a directive line as `sscanf` delimits them: the white space
    skipped after the tag, a non-empty argument run that does not start with
    white space and holds no comma, the comma, a non-empty name holding no
    newline or tab, and whatever follows the name.
  */
  predicate WellCut(ws: string, args: string, name: string, rest: string) {
    && AllSpace(ws)
    && |args| > 0 && !IsSpace(args[0]) && ',' !in args
    && |name| > 0 && '\n' !in name && '\t' !in name
    && (|rest| == 0 || rest[0] in NameStop)
  }

  /** `line` is a directive line whose arguments are `args` and whose display name is `name`. */
  ghost predicate IsDirective(line: string, args: string, name: string) {
    exists ws, rest :: line == Compose(ws, args, name, rest) && WellCut(ws, args, name, rest)
  }

  lemma {:induction false} SkipSpaceOver(ws: string, t: string)
    requires AllSpace(ws)
    requires |t| > 0 && !IsSpace(t[0])
    ensures SkipSpace(ws + t) == t
  {
    if |ws| > 0 {
      assert (ws + t)[1..] == ws[1..] + t;
      SkipSpaceOver(ws[1..], t);
    } else {
      assert ws + t == t;
    }
  }

  lemma {:induction false} SpanNotOver(x: string, y: string, stop: set<char>)
    requires forall i :: 0 <= i < |x| ==> x[i] !in stop
    requires |y| == 0 || y[0] in stop
    ensures SpanNot(x + y, stop) == x
  {
    if |x| > 0 {
      assert (x + y)[1..] == x[1..] + y;
      SpanNotOver(x[1..], y, stop);
    } else {
      assert x + y == y;
    }
  }

  /** A sequence is its prefix followed by its suffix; kept as a lemma to spare callers' solver contexts. */
  lemma {:induction false} SplitAt(s: string, k: nat)
    requires k <= |s|
    ensures s == s[..k] + s[k..]
  {
  }

  lemma {:induction false} MatchArgsSound(t: string) returns (rest: string)
    requires MatchArgs(t).Some?
    ensures var d := MatchArgs(t).value;
      && t == d.args + ([','] + (d.name + rest))
      && |d.args| > 0 && ',' !in d.args
      && |d.name| > 0 && '\n' !in d.name && '\t' !in d.name
      && (|rest| == 0 || rest[0] in NameStop)
  {
    var args := SpanNot(t, {','});
    var after := t[|args| + 1..];
    var name := SpanNot(after, NameStop);
    rest := after[|name|..];
    SplitAt(after, |name|);
    SplitAt(t, |args|);
    assert t[|args|..] == [','] + after by {
      SplitAt(t[|args|..], 1);
    }
  }

  /** What the blank skips is white space, and it is followed by what `SkipSpace` leaves. */
  lemma {:induction false} SkipSpaceSplit(u: string)
    ensures var t := SkipSpace(u);
      u == u[..|u| - |t|] + t && AllSpace(u[..|u| - |t|])
  {
    SplitAt(u, |u| - |SkipSpace(u)|);
  }

  /** A line `MatchExtinf` accepts is cut as the format describes, and the pieces are the ones stored. */
  lemma {:induction false} MatchExtinfSound(line: string)
    requires MatchExtinf(line).Some?
    ensures IsDirective(line, MatchExtinf(line).value.args, MatchExtinf(line).value.name)
  {
    var d := MatchExtinf(line).value;
    var u := line[|Tag|..];
    var t := SkipSpace(u);
    assert MatchArgs(t) == Some(d);
    var rest := MatchArgsSound(t);
    var ws := u[..|u| - |t|];
    SkipSpaceSplit(u);
    SplitAt(line, |Tag|);
    assert line == Compose(ws, d.args, d.name, rest);
    IsDirectiveIntro(line, ws, d.args, d.name, rest);
  }

  lemma {:induction false} IsDirectiveIntro(line: string, ws: string, args: string, name: string, rest: string)
    requires line == Compose(ws, args, name, rest) && WellCut(ws, args, name, rest)
    ensures IsDirective(line, args, name)
  {
  }

  /** The two conversions read exactly the argument run and the name when the text after the blank is cut as the format says. */
  lemma {:induction false} MatchArgsComplete(args: string, name: string, rest: string)
    requires |args| > 0 && ',' !in args
    requires |name| > 0 && '\n' !in name && '\t' !in name && (|rest| == 0 || rest[0] in NameStop)
    ensures MatchArgs(args + ([','] + (name + rest))) == Some(Directive(args, name))
  {
    var after := name + rest;
    var t := args + ([','] + after);
    SpanNotOver(args, [','] + after, {','});
    assert t[|args| + 1..] == after;
    SpanNotOver(name, rest, NameStop);
  }

  lemma {:induction false} MatchExtinfComplete(ws: string, args: string, name: string, rest: string)
    requires WellCut(ws, args, name, rest)
    ensures MatchExtinf(Compose(ws, args, name, rest)) == Some(Directive(args, name))
  {
    var line := Compose(ws, args, name, rest);
    var t := args + ([','] + (name + rest));
    assert line == Tag + (ws + t);
    assert line[..|Tag|] == Tag;
    assert line[|Tag|..] == ws + t;
    SkipSpaceOver(ws, t);
    MatchArgsComplete(args, name, rest);
  }

  /** Both directions: `MatchExtinf` accepts exactly the directive lines and returns their pieces. */
  lemma {:induction false} MatchExtinfExact(line: string, args: string, name: string)
    ensures MatchExtinf(line) == Some(Directive(args, name)) <==> IsDirective(line, args, name)
  {
    if MatchExtinf(line) == Some(Directive(args, name)) {
      MatchExtinfSound(line);
    }
    if IsDirective(line, args, name) {
      var ws, rest :| line == Compose(ws, args, name, rest) && WellCut(ws, args, name, rest);
      MatchExtinfComplete(ws, args, name, rest);
    }
  }

  /** The outcome of looking up a `key="` attribute in a directive's arguments. */
  datatype Attr =
    | Absent            // `strstr` found no `key="`
    | Blank             // found, but `%[^"]` read nothing: the target buffer keeps its old value
    | Value(v: string)  // found, and `%[^"]` read the non-empty `v`

  /**
    `strstr(args, key)` followed by `sscanf(hit + |key|, "%[^\"]", buf)`: the
    value is the run of non-quote characters after the first occurrence of `key`.
  */
  function Attribute(args: string, key: string): (r: Attr)
    ensures r.Absent? <==> forall j :: !MatchAt(args, key, j)
    ensures !r.Absent? ==>
      var s := args[FindSubstr(args, key).value + |key|..];
      && (r.Blank? <==> |s| == 0 || s[0] == '"')
      && (r.Value? ==> 0 < |r.v| <= |s| && r.v == s[..|r.v|] && '"' !in r.v
                       && (|r.v| == |s| || s[|r.v|] == '"'))
  {
    match FindSubstr(args, key)
    case None => Absent
    case Some(i) =>
      var v := SpanNot(args[i + |key|..], {'"'});
      if |v| == 0 then Blank else Value(v)
  }

  /** A key at the very front: its value is the quote-free run right after it. */
  lemma {:induction false} AttributeAtFront(key: string, v: string, tail: string)
    requires |key| > 0 && |v| > 0 && '"' !in v && (|tail| == 0 || tail[0] == '"')
    ensures Attribute(key + (v + tail), key) == Value(v)
  {
    var a := key + (v + tail);
    assert a[..|key|] == key;
    assert MatchAt(a, key, 0);
    assert a[|key|..] == v + tail;
    SpanNotOver(v, tail, {'"'});
  }

  /**
    A key after a prefix inside which no occurrence of the key starts: that
    occurrence is the first, and the quote-free run after it is the value.
  */
  lemma {:induction false} AttributeAfter(pre: string, key: string, v: string, tail: string)
    requires |v| > 0 && '"' !in v && (|tail| == 0 || tail[0] == '"')
    requires forall j :: 0 <= j < |pre| ==> !MatchAt(pre + key, key, j)
    ensures Attribute(pre + (key + (v + tail)), key) == Value(v)
  {
    var a := pre + (key + (v + tail));
    var front := pre + key;
    assert a[..|front|] == front;
    assert a[|pre|..][..|key|] == key;
    assert MatchAt(a, key, |pre|);
    forall j | 0 <= j < |pre| ensures !MatchAt(a, key, j) {
      assert !MatchAt(front, key, j);
      assert a[j..j + |key|] == front[j..j + |key|] by {
        assert a[..|front|][j..j + |key|] == a[j..j + |key|];
      }
    }
    FirstMatchAt(a, key, |pre|);
    assert a[|pre| + |key|..] == v + tail;
    SpanNotOver(v, tail, {'"'});
  }

  /**
    A sufficient test for `AttributeAfter`'s condition: the key's first two
    characters never follow each other in the prefix extended by the key's
    first character.
  */
  lemma {:induction false} NoPairNoMatch(pre: string, key: string)
    requires |key| >= 2
    requires forall j :: 0 <= j < |pre| ==> !((pre + [key[0]])[j] == key[0] && (pre + [key[0]])[j + 1] == key[1])
    ensures forall j :: 0 <= j < |pre| ==> !MatchAt(pre + key, key, j)
  {
    var w := pre + [key[0]];
    var f := pre + key;
    forall j | 0 <= j < |pre| ensures !MatchAt(f, key, j) {
      assert f[j] == w[j] && f[j + 1] == w[j + 1];
    }
  }

  /** An occurrence with none before it is the one `strstr` returns. */
  lemma {:induction false} FirstMatchAt(s: string, key: string, k: nat)
    requires MatchAt(s, key, k) && forall j :: 0 <= j < k ==> !MatchAt(s, key, j)
    ensures FindSubstr(s, key) == Some(k)
  {
  }

}
