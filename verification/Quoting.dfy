/** Shell quoting (`quote`, `argv_line`) against a reader that follows the quoting rules of
    sections 2.2.1 (backslash) and 2.2.2 (single quotes) of the POSIX.1-2017 Shell Command
    Language. */
module Quoting {
  import opened Options

  const QUOTE: char := '\''

  /** `str::replace('\'', r"'\''")` */
  function EscapeQuotes(value: string): string {
    if value == "" then ""
    else (if value[0] == QUOTE then "'\\''" else [value[0]]) + EscapeQuotes(value[1..])
  }

  function Quote(value: string): string {
    "'" + EscapeQuotes(value) + "'"
  }

  /** All arguments quoted, with spaces between them. */
  function ArgvLine(argv: seq<string>): string {
    if argv == [] then ""
    else if |argv| == 1 then Quote(argv[0])
    else Quote(argv[0]) + " " + ArgvLine(argv[1..])
  }

  // ---- A shell's reader ----

  /** Between words, in the unquoted part of a word, or between single quotes. */
  datatype Mode = Between | Unquoted | Quoted

  /** Characters that stand for themselves outside of quotes; of all the others only blanks,
      backslashes and single quotes are read here. */
  predicate IsPlain(c: char) {
    'a' <= c <= 'z' || 'A' <= c <= 'Z' || '0' <= c <= '9' || c in "_-./:,@+"
  }

  /** The words of a command line; `None` where the shell does more than take text as it is,
      or the line is not complete. */
  function Words(line: string, mode: Mode, word: string): Option<seq<string>> {
    if line == "" then
      match mode
      case Between => Some([])
      case Unquoted => Some([word])
      case Quoted => None
    else
      var c, rest := line[0], line[1..];
      match mode
      case Quoted =>
        if c == '\0' then None
        else if c == QUOTE then Words(rest, Unquoted, word)
        else Words(rest, Quoted, word + [c])
      case _ =>
        if c == QUOTE then Words(rest, Quoted, word)
        else if c == '\\' then
          if rest == "" || rest[0] == '\n' || rest[0] == '\0' then None
          else Words(rest[1..], Unquoted, word + [rest[0]])
        else if c == ' ' || c == '\t' then
          if mode.Between? then Words(rest, Between, "") else Prepend(word, Words(rest, Between, ""))
        else if IsPlain(c) then Words(rest, Unquoted, word + [c])
        else None
  }

  function Prepend(word: string, words: Option<seq<string>>): Option<seq<string>> {
    if words.None? then None else Some([word] + words.value)
  }

  function ReadLine(line: string): Option<seq<string>> {
    Words(line, Between, "")
  }

  // ---- The round trip ----

  predicate NulFree(arg: string) {
    '\0' !in arg
  }

  /** Inside quotes, an escaped text adds exactly the text to the word. */
  lemma {:induction false} EscapedIsRead(value: string, rest: string, word: string)
    requires NulFree(value)
    ensures Words(EscapeQuotes(value) + ("'" + rest), Quoted, word) == Words(rest, Unquoted, word + value)
    decreases |value|
  {
    if value == "" {
      assert EscapeQuotes(value) + ("'" + rest) == "'" + rest;
      assert word + value == word;
    } else {
      var more := EscapeQuotes(value[1..]) + ("'" + rest);
      EscapedIsRead(value[1..], rest, word + [value[0]]);
      assert word + [value[0]] + value[1..] == word + value;
      if value[0] == QUOTE {
        assert EscapeQuotes(value) + ("'" + rest) == "'\\''" + more;
        QuoteIsRead(more, word);
      } else {
        assert EscapeQuotes(value) + ("'" + rest) == [value[0]] + more;
        assert ([value[0]] + more)[1..] == more;
      }
    }
  }

  /** End of quotes, an escaped quote, and quotes again: one quote character. */
  lemma QuoteIsRead(rest: string, word: string)
    ensures Words("'\\''" + rest, Quoted, word) == Words(rest, Quoted, word + [QUOTE])
  {
    var third := "'" + rest;
    var second := "'" + third;
    var first := "\\" + second;
    assert "'\\''" + rest == "'" + first;
    Opens(first, word);
    assert first[1..] == second && second[1..] == third;
    assert Words(first, Unquoted, word) == Words(third, Unquoted, word + [QUOTE]);
    Opens(rest, word + [QUOTE]);
  }

  /** A quote ends quotes, or begins them. */
  lemma Opens(rest: string, word: string)
    ensures Words("'" + rest, Quoted, word) == Words(rest, Unquoted, word)
    ensures Words("'" + rest, Unquoted, word) == Words(rest, Quoted, word)
    ensures Words("'" + rest, Between, word) == Words(rest, Quoted, word)
  {
    assert ("'" + rest)[1..] == rest;
  }

  lemma {:induction false} QuotedIsRead(value: string, rest: string)
    requires NulFree(value)
    ensures Words(Quote(value) + rest, Between, "") == Words(rest, Unquoted, value)
  {
    var body := EscapeQuotes(value) + ("'" + rest);
    assert Quote(value) + rest == "'" + body;
    Opens(body, "");
    EscapedIsRead(value, rest, "");
    assert "" + value == value;
  }

  lemma BlankIsRead(rest: string, word: string)
    ensures Words(" " + rest, Unquoted, word) == Prepend(word, Words(rest, Between, ""))
  {
    assert (" " + rest)[1..] == rest;
  }

  lemma LastWord(arg: string)
    requires NulFree(arg)
    ensures ReadLine(Quote(arg)) == Some([arg])
  {
    QuotedIsRead(arg, "");
    assert Quote(arg) + "" == Quote(arg);
  }

  lemma WordInFront(arg: string, rest: string)
    requires NulFree(arg)
    ensures ReadLine(Quote(arg) + " " + rest) == Prepend(arg, ReadLine(rest))
  {
    assert Quote(arg) + " " + rest == Quote(arg) + (" " + rest);
    QuotedIsRead(arg, " " + rest);
    BlankIsRead(rest, arg);
  }

  /** A shell reads back exactly the arguments, whatever characters they hold. */
  lemma {:induction false} ShellReadsArgv(argv: seq<string>)
    requires forall i | 0 <= i < |argv| :: NulFree(argv[i])
    ensures ReadLine(ArgvLine(argv)) == Some(argv)
    decreases |argv|
  {
    if |argv| == 1 {
      LastWord(argv[0]);
      assert argv == [argv[0]];
    } else if argv != [] {
      WordInFront(argv[0], ArgvLine(argv[1..]));
      ShellReadsArgv(argv[1..]);
      assert argv == [argv[0]] + argv[1..];
    }
  }
}
