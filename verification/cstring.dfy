/**
  Character-level helpers shared by the playlist loader and the logo cache:
  the view a C string function has of a buffer, the character classes the
  program uses, and the line splitting done by `getline`. A `char` stands for
  one byte, and the locale's letters and digits are taken to be the ASCII ones.
*/
module CString {

  /** What `strlen`, `sscanf` and friends see of a buffer: everything before the first NUL. */
  function CView(s: string): (r: string)
    ensures |r| <= |s| && r == s[..|r|]
    ensures '\0' !in r
    ensures |r| < |s| ==> s[|r|] == '\0'
  {
    if |s| == 0 || s[0] == '\0' then "" else [s[0]] + CView(s[1..])
  }

  /** A buffer with no NUL is read whole. */
  lemma {:induction false} CViewWhole(s: string)
    requires '\0' !in s
    ensures CView(s) == s
  {
  }

  /** `isspace` in the C locale, which is still in force when the playlist is read. */
  function IsSpace(c: char): (r: bool)
    ensures r <==> c as int == 32 || 9 <= c as int <= 13
  {
    c == ' ' || c == '\t' || c == '\n' || c == '\U{B}' || c == '\U{C}' || c == '\r'
  }

  const Digits: string := "0123456789"
  const Upper: string := "ABCDEFGHIJKLMNOPQRSTUVWXYZ"
  const Lower: string := "abcdefghijklmnopqrstuvwxyz"

  /** The characters `isdigit` or `isalpha` accept in a locale whose letters are the ASCII ones. */
  const AlnumChars: string := Digits + Upper + Lower

  /** `isdigit(c) || isalpha(c)`, for a locale whose letters are the ASCII ones. */
  predicate IsAlnum(c: char) {
    ('0' <= c <= '9') || ('A' <= c <= 'Z') || ('a' <= c <= 'z')
  }

  /** The character classes accept exactly the 62 characters of the table. */
  lemma {:induction false} IsAlnumTable(c: char)
    ensures IsAlnum(c) <==> c in AlnumChars
  {
  }

  /** Concatenation of a sequence of lines, the inverse of `GetLines`. */
  function Concat(lines: seq<string>): string {
    if |lines| == 0 then "" else lines[0] + Concat(lines[1..])
  }

  /** Length of the line `getline` returns from the front of `text`: up to and including the first newline. */
  function LineLength(text: string): (k: nat)
    requires |text| > 0
    ensures 0 < k <= |text|
    ensures forall i :: 0 <= i < k - 1 ==> text[i] != '\n'
    ensures k < |text| ==> text[k - 1] == '\n'
  {
    if text[0] == '\n' || |text| == 1 then 1 else 1 + LineLength(text[1..])
  }

  /**
    The lines successive `getline` calls return for a file holding `text`:
    every line is non-empty and keeps its newline; only the last may lack one.
  */
  function GetLines(text: string): (lines: seq<string>)
    ensures Concat(lines) == text
    ensures forall i :: 0 <= i < |lines| ==> |lines[i]| > 0
    ensures forall i, j :: 0 <= i < |lines| && 0 <= j < |lines[i]| - 1 ==> lines[i][j] != '\n'
    ensures forall i :: 0 <= i < |lines| - 1 ==> lines[i][|lines[i]| - 1] == '\n'
    decreases |text|
  {
    if |text| == 0 then []
    else
      var k := LineLength(text);
      var rest := GetLines(text[k..]);
      assert text == text[..k] + text[k..];
      [text[..k]] + rest
  }

}
