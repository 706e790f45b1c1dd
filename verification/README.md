# Playlist core of simple_m3u_player, in Dafny

simple_m3u_player is a fullscreen IPTV player. It reads an extended-M3U
playlist into a list of named groups of channels, shows them in a GTK window,
downloads and caches the channel logos, and plays the selected stream with
libVLC. This project models the part of `main.c` that does not need a window,
a network or a media library:

- **the playlist store** (`store.dfy`, module `Store`): a playlist is a
  sequence of groups, and each group is a sequence of entries holding `url`,
  `name`, `logo` and the memoised logo image. It has find-group, new-group,
  new-entry-in-group, and find-or-create-then-append. The narrow counters
  `uint8_t num_groups` and `uint16_t num_entries` are modelled with their
  wrap-around: the sequences are what the counters let the program see.
- **the loader** (`loader.dfy`, module `Loader`): the line loop of
  `read_playlist` as a fold over the lines `getline` returns. The fold carries
  the playlist, the pending `name`/`logo`/`group` buffers and the 16-bit entry
  count.
- **the C library calls the loader uses** (`scan.dfy`, module `Scan`;
  `cstring.dfy`, module `CString`): `strstr`, and the `%[^set]` and blank
  directives of `sscanf`. Also modelled are the C-string view of a buffer
  (everything before the first NUL), `isspace` and `isdigit || isalpha` on
  one byte, and `getline`'s line splitting. One `char` stands for one byte,
  and letters and digits are the ASCII ones (see "Left out").
- **the whole-file theorems** (`loader_props.dfy`, module `LoaderProps`):
  the playlist built from a file is described without the loop. As long as
  no counter wraps (at most 255 group names and 65535 entries per group),
  groups appear in first-seen order. Each group then holds exactly the
  entries committed to it, in line order, and there is one entry per line
  not starting with `#`. Distinct group names and the 16-bit returned count
  (the number of such lines modulo 2^16) hold for every file.
- **the logo cache's pure parts** (`cache.dfy`, module `Cache`):
  `str_remove_special`, the cache path built from its output, and the
  per-entry memoisation in `get_channel_logo`. Downloading, file access and
  decoding are function parameters.

The model keeps the program's quirks exactly as the code behaves:

- When `group-title="` is missing, the logo is overwritten with the previous
  group name (`strcpy(logo, group)`).
- The URL is cut at the first carriage return only. The loop tests `'\r'`
  twice, so a trailing newline stays in the stored URL.
- A blank line (`"\n"`) does not start with `#`, so it commits an entry whose
  URL is `"\n"`.
- An empty quoted value (`tvg-logo=""`) leaves the old logo or group in
  place.
- Pending metadata is never reset, so consecutive URL lines share it. URL
  lines before any directive get empty name, logo and group.
- `#EXTINF:-1,Name`, with nothing between the tag and the comma, does not
  match. The `%[^,]` conversion needs at least one character there.
- A display name keeps a carriage return from a CRLF file, because `%[^\n\t]`
  does not stop at `'\r'`.
- When more than 255 distinct group names occur, `num_groups++` wraps from
  255 to 0 (main.c:80). The groups created so far drop out of sight, and the
  next new group takes slot 0 again. Likewise, the 65536th entry of one group
  wraps its `num_entries` to 0 and hides that group's entries (main.c:101).
  `total_entries` still counts every URL line.

Two comments in `main.c` promise more than the code does, and the model
follows the code. The loop commented "remove new lines from text"
(main.c:223) cuts the line at its first carriage return only. The comment on
the 512-byte buffers (main.c:191) says they carry the tag data to the next
line, but nothing clears them, so they reach every later URL line.

Strings are `seq<char>`. Every function that reads a C string reads
`CView(s)`, the characters before the first NUL. Line buffers from `getline`
may hold NULs, and the model does not assume they don't.

## Model

| member | source | states |
|---|---|---|
| CString.CView | main.c:223-227 | A C string function reads the longest NUL-free prefix of a buffer. The view is a prefix holding no NUL, and it ends early only at a NUL. |
| CString.IsAlnumTable | main.c:262 | `isdigit(c) \|\| isalpha(c)` holds for exactly the 62 characters `0`-`9`, `A`-`Z` and `a`-`z`. This assumes a locale whose letters and digits are the ASCII ones. |
| CString.IsSpace | main.c:202 | `isspace`, which decides what the blank of the format skips, holds for exactly the characters with codes 9 to 13 and 32: tab, newline, vertical tab, form feed, carriage return and space. These are the white space of the C locale, which is in force when the playlist is read. |
| CString.GetLines | main.c:197 | `getline` cuts a file into non-empty lines. Each line holds a newline only as its last character, and every line but the last ends in one. Concatenating the lines gives back the file. |
| Scan.SkipSpace | main.c:202 | The blank in the format skips exactly the leading white space: what remains is a suffix that does not start with white space. |
| Scan.SpanNot | main.c:202 | A `%[^set]` conversion reads the longest prefix that holds no character of the set. Whatever follows is either the end of the string or a character of the set. |
| Scan.FindSubstr | main.c:208 | `strstr` returns the first position where the key occurs, or nothing exactly when the key occurs nowhere. |
| Scan.MatchExtinf | main.c:202 | A line matches only when it starts with `#EXTINF:-1`. The arguments read are non-empty, do not start with white space and hold no comma. The name read is non-empty and holds no newline or tab. |
| Scan.MatchExtinfExact | main.c:202-203 | `sscanf(line, "#EXTINF:-1 %[^,],%[^\n\t]")` returns 2 with `args`/`name` exactly when the line is the tag, white space, a non-empty comma-free argument run not starting with white space, a comma, and a non-empty name free of newline and tab, followed by nothing or a newline or tab. |
| Scan.Attribute | main.c:208-214 | An attribute is absent exactly when its key does not occur. Otherwise its value is the longest quote-free run after the first occurrence. The value counts as blank when that run is empty. |
| Scan.AttributeAtFront | main.c:208-214 | A key at the front of the arguments, followed by a non-empty quote-free run that ends at a quote or at the end, yields that run. |
| Scan.AttributeAfter | main.c:208-214 | When no occurrence of the key starts inside a prefix, the key right after that prefix is the occurrence `strstr` finds, and the quote-free run after it is the value. |
| Store.FindGroup | main.c:55-65 | The first group whose name equals the query is found, or none exactly when no group has that name. |
| Store.NewGroup | main.c:67-87 | Below 255 groups, one empty group with the given name is added after all earlier groups, which are unchanged. A name that was missing is then found at the new index. At 255 groups, `num_groups` wraps to 0 and no group is visible. |
| Store.GroupNewEntry | main.c:89-119 | The group keeps its name. Below 65535 entries it gains exactly one entry, at its end, holding the given url, name and logo and no decoded logo, and earlier entries are unchanged. At 65535 entries, `num_entries` wraps to 0 and the group shows none. |
| Store.NewEntry | main.c:121-134 | Find-or-create, then append. Where the entry lands is stated by `NewEntryPlaces`, `NewEntryNames`, `NewEntryEntries` and `NewEntryCount` below. |
| Store.NewEntryPlaces | main.c:121-134 | When no counter wraps, the entry goes to the end of the first group with the given name. That group is created at the end only when none exists, and every other group is unchanged. A new group past 255 groups leaves no group visible. An entry past 65535 in its group empties that group and leaves the others. |
| Store.NewEntryIntoEmpty | main.c:121-134 | The first entry into an empty playlist creates a single group of that name, holding just that entry. |
| Store.NewEntryNames | main.c:126-131 | Group names are unchanged, except that a missing group name is appended at the end: first-seen order. When 255 groups are already visible, a new name leaves no group visible. |
| Store.NewEntryKeepsNamesDistinct | main.c:126-131 | Find-or-create keeps group names pairwise distinct. |
| Store.NewEntryKeepsBounded | main.c:44-52 | The playlist never shows more groups than `uint8_t num_groups` can count, nor more entries in a group than `uint16_t num_entries` can. |
| Store.NewEntryEntries | main.c:121-134 | Without a wrap, the named group's entries gain the new entry at the end, and every other name's entries are unchanged. A wrap of the entry counter empties the target group only. A wrap of the group counter empties every group. |
| Store.NewEntryCount | main.c:121-134 | Without a wrap, the playlist holds exactly one more entry. A wrap of the entry counter loses the target group's 65535 entries, and a wrap of the group counter leaves none. |
| Loader.Inc16 | main.c:229-230 | The 16-bit `total_entries++` equals adding one modulo 2^16. |
| Loader.ApplyDirective | main.c:205-216 | On a matching directive the name is replaced. A group attribute replaces the group, and an empty one keeps it. A logo attribute replaces the logo, an empty one keeps it, and a missing one clears it. When the group attribute is missing, the group is kept and copied over the logo. |
| Loader.UrlOfLine | main.c:223-227 | The stored URL is the line up to its first carriage return. It holds no carriage return, and a newline is kept. |
| Loader.IsTagLine | main.c:199 | A line counts as a directive or comment line exactly when the C string in its buffer starts with `#`. An empty line, or one starting with a NUL, does not. |
| Loader.NextPending | main.c:199-203 | Only a `#` line whose directive matches changes the pending metadata. A non-matching `#` line leaves it alone, and a URL line never resets it. |
| Loader.Step | main.c:197-232 | A `#` line never changes the playlist or the count. Any other line increments the 16-bit count, and adds exactly one entry unless a counter wraps. Distinct group names and the counters' bounds are preserved. |
| Loader.Run | main.c:197-232 | Through the whole loop, group names stay distinct and the lengths stay within the counters. Lines that all start with `#` change neither the playlist nor the count. |
| Loader.ReadLines | main.c:186-234 | The playlist read has distinct group names and fits the counters. A file of `#` lines only gives an empty playlist and a count of 0. |
| Loader.ReadPlaylist | main.c:168-183 | When the file cannot be opened, the result is an empty playlist and a count of 0. An empty file gives the same result. |
| LoaderProps.RunIsInsert | main.c:197-232 | The line loop fills the store with exactly one commit per URL line, each carrying the pending metadata at that line. It ends with the pending state those lines leave. |
| LoaderProps.CommitUrls | main.c:221-229 | The k-th entry committed carries the URL of the k-th line not starting with `#`. |
| LoaderProps.CommitsAppend | main.c:197-232 | Splitting the lines splits the commits: the later part starts from the pending state the earlier part leaves. |
| LoaderProps.ConsecutiveUrlLinesShareMetadata | main.c:229 | Two URL lines in a row both commit with the same pending metadata, because nothing resets it. |
| LoaderProps.NoDirectiveKeepsPending | main.c:192-203 | Without a matching directive, the pending metadata stays as it was through every line and every commit. |
| LoaderProps.UrlBeforeDirectiveUsesDefaults | main.c:192-194 | A URL line before any matching directive is stored with empty name, logo and group. |
| LoaderProps.BlankLineCommits | main.c:199-229 | A blank line does not start with `#`, so it increments the count. Unless a counter wraps, it commits an entry whose URL is the newline itself into the pending group. |
| LoaderProps.UrlKeepsLineFeed | main.c:223-227 | A URL line without a carriage return is stored with its trailing line feed. |
| LoaderProps.InsertNames | main.c:126-131 | Filling an empty store with commits that wrap no counter creates one group per distinct group name, in first-seen order. |
| LoaderProps.InsertEntries | main.c:121-134 | Filling a store with commits that wrap no counter appends to each group exactly the commits aimed at it, in order. |
| LoaderProps.InsertCount | main.c:229-230 | Filling a store with n commits that wrap no counter adds exactly n entries. |
| LoaderProps.NoWrapSnoc | main.c:73-101 | A fill avoids every wrap, with one more commit, exactly when it avoided every wrap before and the extra commit does not wrap a counter. |
| LoaderProps.FitsCountersNoWrap | main.c:44-52 | Commits with at most 255 distinct group names and at most 65535 commits per group fill an empty store without wrapping a counter. |
| LoaderProps.GroupCounterWrap | main.c:73-80 | A URL line for a new group when 255 groups exist leaves no group visible, and the line is still counted. |
| LoaderProps.EntryCounterWrap | main.c:95-101 | A URL line for a group that already shows 65535 entries leaves that group showing none and the other groups unchanged. The line is still counted. |
| LoaderProps.DedupDistinct | main.c:126-131 | The first-seen list of group names has no repetitions. |
| LoaderProps.DedupMembers | main.c:126-131 | The first-seen list of group names holds exactly the names that occur. |
| LoaderProps.Count16Mod | main.c:229-230 | Wrapping the 16-bit counter after every increment is the same as wrapping the number of URL lines once. |
| LoaderProps.ReadLinesGroups | main.c:175-232 | `read_playlist` starts from an empty playlist, and no two of its groups share a name. With at most 255 group names and 65535 entries per group, the names are those of the commits, deduplicated in first-seen order. |
| LoaderProps.ReadLinesEntries | main.c:197-232 | Within the counters' bounds, each group holds exactly the entries committed to it, in line order. |
| LoaderProps.ReadLinesCount | main.c:186-234 | Within the counters' bounds, there is one entry per line not starting with `#`, blank lines included. The returned count is always that number modulo 2^16. |
| LoaderProps.CnnScenario | main.c:197-232 | The lines `#EXTINF:-1 tvg-logo="http://x/l.png" group-title="News",CNN` and `http://stream/cnn.ts` give one group "News". It holds one entry named "CNN" with that logo, whose URL keeps its newline. The count is 1. |
| Cache.SanitiseChar | main.c:262-265 | A letter or digit is kept, and anything else becomes `-`. |
| Cache.StrRemoveSpecial | main.c:251-267 | At each position below `max_len` and before the terminator, the output holds the sanitised input character. A terminator is written exactly when the input is shorter than `max_len`. |
| Cache.SanitisedView | main.c:335-336 | What `%s` reads of the key buffer is the sanitised URL, cut to the buffer's size, character by character. |
| Cache.StrRemoveSpecialIdempotent | main.c:251-267 | Sanitising an already sanitised key reproduces it. |
| Cache.Truncate | main.c:336 | `snprintf` into a buffer of n bytes keeps the longest prefix of at most n-1 characters. That is the whole string when it fits, and exactly n-1 characters otherwise. |
| Cache.CachePath | main.c:331-336 | The path is `cache/` followed by the sanitised URL, cut to 93 key characters. It fits the 100-byte buffer and holds only letters, digits and `-` after the directory. |
| Cache.CachePathCollides | main.c:335 | URLs that differ only in non-alphanumeric characters map to the same cache file. |
| Cache.CachePathTruncates | main.c:331-336 | URLs that agree on their first 93 characters map to the same cache file. |
| Cache.GetChannelLogo | main.c:393-409 | An already decoded logo is returned and the entry is unchanged. When no file can be had, nothing is stored. Otherwise the decoding result is returned and stored. The url, name and logo are never touched. |
| Cache.LogoMemoised | main.c:395-396 | After one successful decoding, later calls return the same logo without opening or decoding anything. |
| Cache.LogoFailureRetried | main.c:398-406 | A failed lookup is not remembered: the next call opens and decodes again. |

## Left out

- The GTK window, tree views, key handlers and global selection state, `main`, and the CSS and Glade loading: toolkit glue with no playlist logic.
- The libVLC playback calls: a foreign native library.
- libcurl, and `stat`/`mkdir`/`access`/`fopen`/`remove` in `cache_or_download_file`: network and filesystem I/O. Only the path composition is modelled. In `get_channel_logo`, opening the file is a function parameter.
- GdkPixbuf decoding and the 80×80 bilinear scaling in `pixbuff_from_file`: a foreign image library with floating-point resampling. Decoding is a function parameter.
- `playlist_entry_destroy`, `playlist_group_destroy`, `playlist_destroy`: memory release has no counterpart in a value model.
- `playlist_print`: console output only.
- Allocation failure of `malloc`/`realloc`: allocation is total in the model, so `playlist_new_entry` always succeeds and every URL line is counted.
- The null-pointer sanity checks: Dafny values are never null.
- What lies beyond a wrapped counter: the model keeps only what `num_groups` and `num_entries` let the program see. The entries written past a wrap, and the memory `realloc` gives back when the array shrinks to one slot, have no counterpart.
- LoaderProps.ReadLinesGroups: the first-seen order of the group names is promised only for at most 255 distinct group names and at most 65535 entries per group. Beyond that, a wrap hides groups; `GroupCounterWrap` and `EntryCounterWrap` state what one wrapping line does.
- LoaderProps.ReadLinesEntries: each group's entries are characterised only within the same bounds, for the same reason.
- LoaderProps.ReadLinesCount: the number of visible entries is characterised only within the same bounds. The returned 16-bit count is characterised for every file.
- LoaderProps.InsertNames: requires that the fill wraps no counter, because a wrap drops the groups created so far.
- LoaderProps.InsertEntries: requires that the fill wraps no counter, because a wrap empties a group.
- LoaderProps.InsertCount: requires that the fill wraps no counter, because a wrap hides entries.
- The `uint16_t` string lengths in `group_new_entry`: a name, logo or URL of 65535 bytes or more wraps `strlen + 1`, and `memcpy` then copies a cut string without its terminator. Reading it is undefined behaviour in C. The model copies strings whole.
- Overflow of the 512-byte `args`/`name`/`logo`/`group` buffers by the unbounded `%[` conversions: undefined behaviour in C. The model's strings are unbounded.
- Cache.CachePath: for URLs of 94 characters or more, the 94-byte key buffer is left unterminated, and `snprintf` reads past it (undefined behaviour). The model reads only the buffer. That is all the 100-byte output limit lets into the path anyway.
- Multi-byte characters: one Dafny `char` stands for one byte of a C string. A UTF-8 character of several bytes is several characters to the C program. `str_remove_special` writes one `-` per byte, and each byte counts toward the 93-character cut. The model's strings are these byte strings.
- CString.IsAlnumTable: `str_remove_special` runs from a GTK handler, after `gtk_init` (main.c:626) has set the locale from the environment. The model assumes a locale whose letters and digits are the ASCII ones, as in the C locale and the glibc UTF-8 locales. In a single-byte locale such as ISO-8859-1, a byte such as 0xE9 is a letter, and the C program keeps it. A negative `char` passed to `isdigit`/`isalpha` is undefined behaviour in C. The `isspace` inside `sscanf` is not affected: `read_playlist` runs at main.c:605, before `gtk_init`, so in the C locale.
- Cache.SanitiseChar: keeps exactly the ASCII letters and digits, under the locale assumption above.
- Cache.CachePath: its promise that the key holds only letters, digits and `-` rests on the same locale assumption.
