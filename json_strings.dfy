/**
 * JSON text for a list of task strings: what `JSON.stringify` writes for an
 * array of strings, and a parser that reads such text back.
 *
 * A character below U+0020, a quotation mark and a reverse solidus are escaped
 * as JSON.stringify escapes them (the two-character forms \b \f \n \r \t where
 * they exist, otherwise \u00XX with lower-case hexadecimal digits); every other
 * character is written as itself.
 */
module JsonStrings {
  import opened Wrappers

  /** What the parsed value of the 'tasks' key is, as far as the app can tell. */
  datatype Decoded = TaskArray(items: seq<string>) | NotTaskArray

  const Backspace: char := 8 as char
  const FormFeed: char := 12 as char

  /** The lower-case hexadecimal digit for a value below 16. */
  function HexDigit(n: nat): (c: char)
    requires n < 16
    ensures HexValue(c) == n
  {
    if n < 10 then ('0' as int + n) as char else ('a' as int + n - 10) as char
  }

  /** The value of a hexadecimal digit of either case, or -1 for any other character. */
  function HexValue(c: char): (v: int)
    ensures -1 <= v < 16
    ensures v == -1 <==> !('0' <= c <= '9' || 'a' <= c <= 'f' || 'A' <= c <= 'F')
  {
    if '0' <= c <= '9' then c as int - '0' as int
    else if 'a' <= c <= 'f' then c as int - 'a' as int + 10
    else if 'A' <= c <= 'F' then c as int - 'A' as int + 10
    else -1
  }

  /** The text that stands for one character inside a JSON string literal. */
  function EscapeChar(c: char): (r: string)
    ensures r == [c] <==> c != '"' && c != '\\' && c as int >= 0x20
    ensures r != [c] ==> |r| >= 2 && r[0] == '\\'
  {
    if c == '"' then ['\\', '"']
    else if c == '\\' then ['\\', '\\']
    else if c == Backspace then ['\\', 'b']
    else if c == FormFeed then ['\\', 'f']
    else if c == '\n' then ['\\', 'n']
    else if c == '\r' then ['\\', 'r']
    else if c == '\t' then ['\\', 't']
    else if c as int < 0x20 then ['\\', 'u', '0', '0', HexDigit(c as int / 16), HexDigit(c as int % 16)]
    else [c]
  }

  /** The body of the JSON string literal for `s`, without the quotation marks. */
  function Escape(s: string): string
  {
    if s == [] then [] else EscapeChar(s[0]) + Escape(s[1..])
  }

  /** The JSON string literal for `s`. */
  function Quote(s: string): string
  {
    ['"'] + Escape(s) + ['"']
  }

  /** The string literals of `ts`, separated by commas. */
  function JoinQuoted(ts: seq<string>): string
  {
    if |ts| == 0 then []
    else if |ts| == 1 then Quote(ts[0])
    else Quote(ts[0]) + [','] + JoinQuoted(ts[1..])
  }

  /** `JSON.stringify(tasks)` for an array of strings. */
  function Stringify(tasks: seq<string>): (r: string)
    ensures |r| >= 2 && r[0] == '[' && r[|r| - 1] == ']'
  {
    ['['] + JoinQuoted(tasks) + [']']
  }

  /** The value of four hexadecimal digits, or None if one of them is not a digit. */
  function Hex4(s: string): (r: Option<nat>)
    requires |s| == 4
    ensures r.Some? ==> r.value < 0x10000
  {
    var a, b, c, d := HexValue(s[0]), HexValue(s[1]), HexValue(s[2]), HexValue(s[3]);
    if a < 0 || b < 0 || c < 0 || d < 0 then None
    else Some(((a * 16 + b) * 16 + c) * 16 + d)
  }

  /**
   * Decodes the escape sequence that follows a reverse solidus; `s` starts right
   * after the backslash. Yields the character and the text after the sequence.
   * A \u escape in the surrogate range D800-DFFF has no character of its own
   * and fails, also when it is half of a pair that JSON.parse would combine.
   */
  function Unescape(s: string): (r: Option<(char, string)>)
    ensures r.Some? ==> |r.value.1| < |s|
  {
    if |s| == 0 then None
    else if s[0] == '"' then Some(('"', s[1..]))
    else if s[0] == '\\' then Some(('\\', s[1..]))
    else if s[0] == '/' then Some(('/', s[1..]))
    else if s[0] == 'b' then Some((Backspace, s[1..]))
    else if s[0] == 'f' then Some((FormFeed, s[1..]))
    else if s[0] == 'n' then Some(('\n', s[1..]))
    else if s[0] == 'r' then Some(('\r', s[1..]))
    else if s[0] == 't' then Some(('\t', s[1..]))
    else if s[0] == 'u' && |s| >= 5 then
      match Hex4(s[1..5])
      case None => None
      case Some(n) => if 0xD800 <= n < 0xE000 then None else Some((n as char, s[5..]))
    else None
  }

  /**
   * Reads the rest of a string literal; `s` starts right after the opening
   * quotation mark. Yields the decoded contents and the text after the closing
   * quotation mark, or None if the literal is not well formed.
   */
  function ParseChars(s: string): (r: Option<(string, string)>)
    ensures r.Some? ==> |r.value.1| < |s|
    decreases |s|
  {
    if |s| == 0 then None
    else if s[0] == '"' then Some(([], s[1..]))
    else if s[0] == '\\' then
      match Unescape(s[1..])
      case None => None
      case Some((c, rest)) =>
        match ParseChars(rest)
        case None => None
        case Some((t, after)) => Some(([c] + t, after))
    else if s[0] as int < 0x20 then None
    else
      match ParseChars(s[1..])
      case None => None
      case Some((t, after)) => Some(([s[0]] + t, after))
  }

  /**
   * Reads one or more comma-separated string literals followed by the closing
   * bracket that ends the text.
   */
  function ParseElements(s: string): Option<seq<string>>
    decreases |s|
  {
    if |s| == 0 || s[0] != '"' then None
    else
      match ParseChars(s[1..])
      case None => None
      case Some((item, rest)) =>
        if rest == [']'] then Some([item])
        else if |rest| > 0 && rest[0] == ',' then
          match ParseElements(rest[1..])
          case None => None
          case Some(items) => Some([item] + items)
        else None
  }

  /**
   * `JSON.parse(text)` as far as an array of strings goes: TaskArray for the
   * text of such an array written without white space, NotTaskArray for
   * anything else.
   */
  function Parse(text: string): (d: Decoded)
    ensures d.TaskArray? ==> |text| >= 2 && text[0] == '['
  {
    if text == ['[', ']'] then TaskArray([])
    else if |text| > 0 && text[0] == '[' then
      match ParseElements(text[1..])
      case Some(items) => TaskArray(items)
      case None => NotTaskArray
    else NotTaskArray
  }

  /** Reading back the escape of one character yields that character. */
  lemma UnescapeEscapeChar(c: char, tail: string)
    requires EscapeChar(c) != [c]
    ensures Unescape(EscapeChar(c)[1..] + tail) == Some((c, tail))
  {
    var e := EscapeChar(c)[1..] + tail;
    if c as int < 0x20 && c != Backspace && c != FormFeed && c != '\n' && c != '\r' && c != '\t' {
      var hi, lo := c as int / 16, c as int % 16;
      assert e == ['u', '0', '0', HexDigit(hi), HexDigit(lo)] + tail;
      assert e[1..5] == ['0', '0', HexDigit(hi), HexDigit(lo)];
      assert Hex4(e[1..5]) == Some(hi * 16 + lo);
      assert e[5..] == tail;
    } else {
      assert e == [EscapeChar(c)[1]] + tail;
    }
  }

  /** One escaped character followed by more text is read as that character, then the rest. */
  lemma ParseCharsEscapeChar(c: char, tail: string)
    ensures ParseChars(EscapeChar(c) + tail) ==
      match ParseChars(tail)
      case None => None
      case Some((t, after)) => Some(([c] + t, after))
  {
    var e := EscapeChar(c) + tail;
    if EscapeChar(c) == [c] {
      assert e[1..] == tail;
    } else {
      assert e[1..] == EscapeChar(c)[1..] + tail;
      UnescapeEscapeChar(c, tail);
    }
  }

  /** The body of a string literal, closed by a quotation mark, reads back as the original string. */
  lemma {:induction false} ParseCharsEscape(s: string, rest: string)
    ensures ParseChars(Escape(s) + ['"'] + rest) == Some((s, rest))
  {
    if s == [] {
      assert Escape(s) + ['"'] + rest == ['"'] + rest;
    } else {
      var tail := Escape(s[1..]) + ['"'] + rest;
      assert Escape(s) + ['"'] + rest == EscapeChar(s[0]) + tail;
      ParseCharsEscape(s[1..], rest);
      ParseCharsEscapeChar(s[0], tail);
      assert [s[0]] + s[1..] == s;
    }
  }

  /** The literal of `item` followed by `rest` opens a literal that reads as `item` and leaves `rest`. */
  lemma QuoteThenRest(item: string, rest: string)
    ensures var s := Quote(item) + rest;
      |s| > 0 && s[0] == '"' && ParseChars(s[1..]) == Some((item, rest))
  {
    var s := Quote(item) + rest;
    assert s == ['"'] + (Escape(item) + ['"'] + rest);
    assert s[1..] == Escape(item) + ['"'] + rest;
    ParseCharsEscape(item, rest);
  }

  /** A string literal, a comma and text that reads as a list read as the longer list. */
  lemma ParseElementsCons(item: string, more: string, items: seq<string>)
    requires ParseElements(more) == Some(items)
    ensures ParseElements(Quote(item) + ([','] + more)) == Some([item] + items)
  {
    var rest := [','] + more;
    QuoteThenRest(item, rest);
    assert rest != [']'] && rest[0] == ',' && rest[1..] == more;
  }

  /** The joined literals of a list of two or more split after the first literal. */
  lemma JoinQuotedCons(ts: seq<string>)
    requires |ts| >= 2
    ensures JoinQuoted(ts) + [']'] == Quote(ts[0]) + ([','] + (JoinQuoted(ts[1..]) + [']']))
  {
  }

  /** The joined literals of a non-empty list, closed by a bracket, read back as the list. */
  lemma {:induction false} ParseElementsJoin(ts: seq<string>)
    requires |ts| > 0
    ensures ParseElements(JoinQuoted(ts) + [']']) == Some(ts)
  {
    if |ts| == 1 {
      QuoteThenRest(ts[0], [']']);
      assert JoinQuoted(ts) + [']'] == Quote(ts[0]) + [']'];
      assert ts == [ts[0]];
    } else {
      ParseElementsJoin(ts[1..]);
      ParseElementsCons(ts[0], JoinQuoted(ts[1..]) + [']'], ts[1..]);
      JoinQuotedCons(ts);
      assert [ts[0]] + ts[1..] == ts;
    }
  }

  /** Parsing what Stringify writes gives back exactly the list, in order. */
  lemma ParseStringify(tasks: seq<string>)
    ensures Parse(Stringify(tasks)) == TaskArray(tasks)
  {
    var text := Stringify(tasks);
    if tasks != [] {
      assert |JoinQuoted(tasks)| >= 2 by {
        if |tasks| == 1 {
          assert JoinQuoted(tasks) == Quote(tasks[0]);
        } else {
          assert JoinQuoted(tasks) == Quote(tasks[0]) + [','] + JoinQuoted(tasks[1..]);
        }
      }
      assert text[1..] == JoinQuoted(tasks) + [']'];
      ParseElementsJoin(tasks);
    }
  }

  /** Different lists are written as different text. */
  lemma StringifyInjective(a: seq<string>, b: seq<string>)
    requires Stringify(a) == Stringify(b)
    ensures a == b
  {
    ParseStringify(a);
    ParseStringify(b);
  }
}
