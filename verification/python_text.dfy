/** The parts of Python's `str` the scrapers use. */
module PythonText {

  /** Where `str.splitlines` breaks. */
  predicate IsBreak(c: char) {
    c in {'\n', '\r', '\U{B}', '\U{C}', '\U{1C}', '\U{1D}', '\U{1E}', '\U{85}', '\U{2028}', '\U{2029}'}
  }

  /** What `str.strip` removes. */
  predicate IsSpace(c: char) {
    || IsBreak(c) || c in {'\t', '\U{1F}', ' ', '\U{A0}', '\U{1680}', '\U{202F}', '\U{205F}', '\U{3000}'}
    || '\U{2000}' <= c <= '\U{200A}'
  }

  function TrimLeft(s: string): string {
    if s != "" && IsSpace(s[0]) then TrimLeft(s[1..]) else s
  }

  function TrimRight(s: string): string {
    if s != "" && IsSpace(s[|s| - 1]) then TrimRight(s[..|s| - 1]) else s
  }

  function Strip(s: string): string {
    TrimRight(TrimLeft(s))
  }

  /** `str.lower` on ASCII letters: no other character lowers into the letters it is compared with here. */
  function Lower(s: string): (r: string)
    ensures |r| == |s|
  {
    if s == "" then ""
    else [if 'A' <= s[0] <= 'Z' then (s[0] as int - 'A' as int + 'a' as int) as char else s[0]] + Lower(s[1..])
  }

  /** `str.upper` on ASCII letters. */
  function Upper(s: string): (r: string)
    ensures |r| == |s|
  {
    if s == "" then ""
    else [if 'a' <= s[0] <= 'z' then (s[0] as int - 'a' as int + 'A' as int) as char else s[0]] + Upper(s[1..])
  }

  lemma {:induction false} LowerAt(s: string, i: nat)
    requires i < |s|
    ensures Lower(s)[i] as int == s[i] as int + if 65 <= s[i] as int <= 90 then 32 else 0
  {
    if i > 0 {
      LowerAt(s[1..], i - 1);
    }
  }

  lemma {:induction false} UpperAt(s: string, i: nat)
    requires i < |s|
    ensures Upper(s)[i] as int == s[i] as int - if 97 <= s[i] as int <= 122 then 32 else 0
  {
    if i > 0 {
      UpperAt(s[1..], i - 1);
    }
  }

  function RemoveCommas(s: string): string {
    if s == "" then "" else (if s[0] == ',' then "" else [s[0]]) + RemoveCommas(s[1..])
  }

  /** `plain` with commas put in anywhere, or nowhere. */
  predicate CommasIn(plain: string, printed: string) {
    if printed == "" then plain == ""
    else if printed[0] == ',' then CommasIn(plain, printed[1..])
    else plain != "" && plain[0] == printed[0] && CommasIn(plain[1..], printed[1..])
  }

  lemma {:induction false} RemovingMeaning(plain: string, printed: string)
    ensures RemoveCommas(printed) == plain <==> CommasIn(plain, printed)
  {
    if printed != "" {
      if printed[0] == ',' {
        RemovingMeaning(plain, printed[1..]);
      } else if plain != "" {
        RemovingMeaning(plain[1..], printed[1..]);
        assert plain == [plain[0]] + plain[1..];
      }
    }
  }

  /** The line breaks by code point. */
  lemma BreakTable(c: char)
    ensures IsBreak(c) <==> var n := c as int; 10 <= n <= 13 || 28 <= n <= 30 || n == 133 || n == 8232 || n == 8233
  {
  }

  /** The white space by code point. */
  lemma SpaceTable(c: char)
    ensures IsSpace(c)
            <==> var n := c as int;
                 || 9 <= n <= 13 || 28 <= n <= 32 || n == 133 || n == 160 || n == 5760 || 8192 <= n <= 8202
                 || n == 8232 || n == 8233 || n == 8239 || n == 8287 || n == 12288
  {
  }

  predicate Trimmed(s: string) {
    s != "" ==> !IsSpace(s[0]) && !IsSpace(s[|s| - 1])
  }

  lemma StripCell(s: string)
    requires Trimmed(s)
    ensures Strip(s) == s
  {
  }
}
