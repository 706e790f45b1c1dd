/**
  The pure parts of the logo cache: the file-name-safe key `str_remove_special`
  derives from a logo URL, the cache path composed from it, and the per-entry
  memoisation of decoded logos in `get_channel_logo`. Downloading, file access
  and image decoding are parameters.
*/
module Cache {
  import opened Wrappers
  import opened CString
  import opened Store

  /** The cache directory, relative to the working directory. */
  const CacheDir: string := "cache"

  /** `MAX_LEN_URL`: the size of the `file_name` buffer. */
  const MaxLenUrl: nat := 100

  /** The size of the `parsed_url` buffer: room for the key after `"cache/"`. */
  const KeyLen: nat := MaxLenUrl - 6

  /** A letter or digit is kept; every other character becomes `-`. */
  function SanitiseChar(c: char): (r: char)
    ensures IsAlnum(c) ==> r == c
    ensures !IsAlnum(c) ==> r == '-'
  {
    if IsAlnum(c) then c else '-'
  }

  /**
    The characters `str_remove_special(src, dst, maxLen)` writes into `dst`.
    Below `maxLen`, each position of the C string `src` is copied if it is a
    letter or digit and written as `-` otherwise; the terminator is written
    only when the string ends before `maxLen`.
  */
  function StrRemoveSpecial(src: string, maxLen: nat): (dst: seq<char>)
    ensures |dst| == if |CView(src)| < maxLen then |CView(src)| + 1 else maxLen
    ensures forall i :: 0 <= i < |dst| ==>
      dst[i] == if i < |CView(src)| then SanitiseChar(src[i]) else '\0'
    ensures '\0' in dst <==> |CView(src)| < maxLen
    decreases maxLen
  {
    if maxLen == 0 then []
    else if |src| == 0 || src[0] == '\0' then ['\0']
    else [SanitiseChar(src[0])] + StrRemoveSpecial(src[1..], maxLen - 1)
  }

  /** `snprintf` into a buffer of `size` bytes: at most `size - 1` characters are kept. */
  function Truncate(s: string, size: nat): (r: string)
    requires size > 0
    ensures |r| < size && |r| <= |s| && r == s[..|r|]
    ensures |s| < size ==> r == s
    ensures |s| >= size ==> |r| == size - 1
  {
    if |s| < size then s else s[..size - 1]
  }

  function Min(a: nat, b: nat): nat {
    if a < b then a else b
  }

  /**
    The file name `cache_or_download_file` looks up for `url`:
    `snprintf(file_name, 100, "%s/%s", "cache", parsed_url)`. The key fills at
    most 93 characters, so the path fits its buffer and stays inside the cache
    directory; each key character is the sanitised URL character.
  */
  function CachePath(url: string): (path: string)
    ensures |path| < MaxLenUrl
    ensures |path| == |CacheDir| + 1 + Min(|CView(url)|, KeyLen - 1)
    ensures path[..|CacheDir| + 1] == CacheDir + "/"
    ensures forall i :: |CacheDir| + 1 <= i < |path| ==> path[i] == SanitiseChar(url[i - |CacheDir| - 1])
    ensures forall i :: |CacheDir| + 1 <= i < |path| ==> IsAlnum(path[i]) || path[i] == '-'
  {
    // with no terminator in the 94-byte buffer, `%s` reads the whole buffer; the
    // 100-byte limit cuts the output before anything past the buffer is copied
    var key := CView(StrRemoveSpecial(url, KeyLen));
    SanitisedView(url, KeyLen);
    PathShape(url, key);
    Truncate(CacheDir + "/" + key, MaxLenUrl)
  }

  /** The shape of the path built from a key that is the sanitised URL, cut to `KeyLen`. */
  lemma {:induction false} PathShape(url: string, key: string)
    requires |key| == Min(|CView(url)|, KeyLen)
    requires forall i :: 0 <= i < |key| ==> key[i] == SanitiseChar(url[i])
    ensures var path := Truncate(CacheDir + "/" + key, MaxLenUrl);
      && |path| == |CacheDir| + 1 + Min(|CView(url)|, KeyLen - 1)
      && path[..|CacheDir| + 1] == CacheDir + "/"
      && forall i :: |CacheDir| + 1 <= i < |path| ==> path[i] == SanitiseChar(url[i - |CacheDir| - 1])
  {
    var dir := CacheDir + "/";
    assert |dir| == |CacheDir| + 1;
    var path := Truncate(dir + key, MaxLenUrl);
    TruncateAfterPrefix(dir, key, MaxLenUrl);
    forall i | |dir| <= i < |path|
      ensures path[i] == SanitiseChar(url[i - |dir|])
    {
      assert path[i] == key[i - |dir|];
    }
  }

  /** `snprintf` of a prefix and a string keeps the prefix whole when it fits and cuts the string. */
  lemma {:induction false} TruncateAfterPrefix(dir: string, key: string, size: nat)
    requires |dir| < size
    ensures var path := Truncate(dir + key, size);
      && |path| == |dir| + Min(|key|, size - 1 - |dir|)
      && path[..|dir|] == dir
      && forall i :: |dir| <= i < |path| ==> path[i] == key[i - |dir|]
  {
    var full := dir + key;
    var path := Truncate(full, size);
    assert forall i :: 0 <= i < |path| ==> path[i] == full[i];
    assert path[..|dir|] == full[..|dir|] == dir;
  }

  /** What a C string function reads of the sanitised buffer: the sanitised string, cut to `maxLen`. */
  lemma {:induction false} SanitisedView(src: string, maxLen: nat)
    ensures var k := CView(StrRemoveSpecial(src, maxLen));
      && |k| == Min(|CView(src)|, maxLen)
      && forall i :: 0 <= i < |k| ==> k[i] == SanitiseChar(src[i])
  {
    var d := StrRemoveSpecial(src, maxLen);
    var s := CView(src);
    if |s| < maxLen {
      assert d[|s|] == '\0';
      assert forall i :: 0 <= i < |s| ==> d[i] != '\0';
    } else {
      assert '\0' !in d;
      CViewWhole(d);
    }
  }

  /** Sanitising a sanitised key changes nothing. */
  lemma {:induction false} StrRemoveSpecialIdempotent(src: string, maxLen: nat)
    ensures StrRemoveSpecial(CView(StrRemoveSpecial(src, maxLen)), maxLen)
         == StrRemoveSpecial(src, maxLen)
  {
    var d := StrRemoveSpecial(src, maxLen);
    var k := CView(d);
    SanitisedView(src, maxLen);
    var d2 := StrRemoveSpecial(k, maxLen);
    assert |d2| == |d|;
    assert forall i :: 0 <= i < |d| ==> d2[i] == d[i];
  }

  /** URLs that differ only in which non-alphanumeric characters they hold share a cache file. */
  lemma {:induction false} CachePathCollides(u1: string, u2: string)
    requires |CView(u1)| == |CView(u2)|
    requires forall i :: 0 <= i < |CView(u1)| ==> (IsAlnum(u1[i]) || IsAlnum(u2[i]) ==> u1[i] == u2[i])
    ensures CachePath(u1) == CachePath(u2)
  {
    var p1 := CachePath(u1);
    var p2 := CachePath(u2);
    assert |p1| == |p2|;
    forall i | 0 <= i < |p1|
      ensures p1[i] == p2[i]
    {
      if i >= |CacheDir| + 1 {
        var j := i - |CacheDir| - 1;
        assert u1[j] == CView(u1)[j] && u2[j] == CView(u2)[j];
      } else {
        assert p1[i] == p1[..|CacheDir| + 1][i];
        assert p2[i] == p2[..|CacheDir| + 1][i];
      }
    }
  }

  /** URLs that agree on their first 93 characters share a cache file, whatever follows. */
  lemma {:induction false} CachePathTruncates(u1: string, u2: string)
    requires |CView(u1)| >= KeyLen - 1 && |CView(u2)| >= KeyLen - 1
    requires u1[..KeyLen - 1] == u2[..KeyLen - 1]
    ensures CachePath(u1) == CachePath(u2)
  {
    var p1 := CachePath(u1);
    var p2 := CachePath(u2);
    forall i | 0 <= i < |p1|
      ensures p1[i] == p2[i]
    {
      if i >= |CacheDir| + 1 {
        var j := i - |CacheDir| - 1;
        assert u1[j] == u1[..KeyLen - 1][j];
        assert u2[j] == u2[..KeyLen - 1][j];
      } else {
        assert p1[i] == p1[..|CacheDir| + 1][i];
        assert p2[i] == p2[..|CacheDir| + 1][i];
      }
    }
  }

  /**
    `get_channel_logo`. A logo already decoded is returned as it is. Otherwise
    `open` stands for `cache_or_download_file` and `decode` for
    `pixbuff_from_file`: when no file can be had, nothing is stored; otherwise
    the decoding result is stored on the entry, a failed decoding included.
  */
  function GetChannelLogo(e: Entry, open: string -> Option<seq<bv8>>, decode: seq<bv8> -> Option<Pixbuf>)
    : (r: (Option<Pixbuf>, Entry))
    ensures r.1.url == e.url && r.1.name == e.name && r.1.logo == e.logo
    ensures e.thumbnail.Some? ==> r == (e.thumbnail, e)
    ensures e.thumbnail.None? && open(e.logo).None? ==> r == (None, e)
    ensures e.thumbnail.None? && open(e.logo).Some? ==>
      r.0 == decode(open(e.logo).value) && r.1.thumbnail == r.0
  {
    if e.thumbnail.Some? then (e.thumbnail, e)
    else
      match open(e.logo)
      case None => (None, e)
      case Some(bytes) =>
        var logo := decode(bytes);
        (logo, e.(thumbnail := logo))
  }

  /** Once a logo has been decoded, later calls return it without opening or decoding anything. */
  lemma {:induction false} LogoMemoised(e: Entry, open: string -> Option<seq<bv8>>, decode: seq<bv8> -> Option<Pixbuf>,
                     open': string -> Option<seq<bv8>>, decode': seq<bv8> -> Option<Pixbuf>)
    requires GetChannelLogo(e, open, decode).0.Some?
    ensures var (logo, e') := GetChannelLogo(e, open, decode);
      GetChannelLogo(e', open', decode') == (logo, e')
  {
  }

  /** A failure is not remembered: the next call opens and decodes again. */
  lemma {:induction false} LogoFailureRetried(e: Entry, open: string -> Option<seq<bv8>>, decode: seq<bv8> -> Option<Pixbuf>,
                           open': string -> Option<seq<bv8>>, decode': seq<bv8> -> Option<Pixbuf>)
    requires GetChannelLogo(e, open, decode).0.None?
    ensures var e' := GetChannelLogo(e, open, decode).1;
      GetChannelLogo(e', open', decode').0
        == if open'(e.logo).Some? then decode'(open'(e.logo).value) else None
  {
  }

}
