/**
 * Quoting a value for the shell: `shellQuote` on the host (internal/device/manager.go) and
 * `JBP1lotQuote` on the daemon (device/daemon/Service.m), which are the same function.
 */
module Quoting {
  import opened Common

  const QUOTE: char := '\''
  const BACKSLASH: char := '\\'

  /** Every single quote replaced by: close, an escaped quote, open again. */
  function ReplaceQuotes(value: string): string {
    if value == "" then ""
    else (if value[0] == QUOTE then "'\\''" else [value[0]]) + ReplaceQuotes(value[1..])
  }

  function Quote(value: string): string { "'" + ReplaceQuotes(value) + "'" }

  // ---------------------------------------------------------------- a POSIX shell's words

  /**
   * The token recogniser for simple commands by sections 2.2.1 and 2.2.2 of the POSIX Shell
   * Command Language: blanks separate words, a backslash outside quotes keeps the next character,
   * single quotes keep everything up to the next one. `Outside` has a character with a further
   * meaning there (an operator, an expansion, another kind of quote) fail the recogniser.
   */
  datatype Mode = Outside | AfterBackslash | InQuotes

  /** The finished words, the word being read (none between words), and the mode. */
  datatype Lexer = Lexer(words: seq<string>, word: Option<string>, mode: Mode) | Unsupported

  const START: Lexer := Lexer([], None, Outside)

  predicate Special(c: char) {
    c in {'|', '&', ';', '<', '>', '(', ')', '$', '`', '"', '*', '?', '[', '#', '~', '=', '%', '!', '{', '}', '\n'}
  }

  function WordSoFar(l: Lexer): string
    requires l.Lexer?
  {
    if l.word.Some? then l.word.value else ""
  }

  function Keep(l: Lexer, c: char, mode: Mode): Lexer
    requires l.Lexer?
  {
    l.(word := Some(WordSoFar(l) + [c]), mode := mode)
  }

  function LexChar(l: Lexer, c: char): Lexer {
    if l.Unsupported? then l
    else
      match l.mode
      case InQuotes => if c == QUOTE then l.(mode := Outside) else Keep(l, c, InQuotes)
      case AfterBackslash => if c == '\n' then l.(mode := Outside) else Keep(l, c, Outside)
      case Outside =>
        if c == QUOTE then Lexer(l.words, Some(WordSoFar(l)), InQuotes)
        else if c == BACKSLASH then l.(mode := AfterBackslash)
        else if c == ' ' || c == '\t' then
          (if l.word.Some? then Lexer(l.words + [l.word.value], None, Outside) else l)
        else if Special(c) then Unsupported
        else Keep(l, c, Outside)
  }

  function Lex(l: Lexer, text: string): Lexer
    decreases |text|
  {
    if text == "" then l else Lex(LexChar(l, text[0]), text[1..])
  }

  /** The words of a command, or none if it is no simple list of words. */
  function Words(text: string): Option<seq<string>> {
    var end := Lex(START, text);
    if end.Unsupported? || end.mode != Outside then None
    else Some(if end.word.Some? then end.words + [end.word.value] else end.words)
  }

  lemma {:induction false} LexSplits(l: Lexer, a: string, b: string)
    ensures Lex(l, a + b) == Lex(Lex(l, a), b)
    decreases |a|
  {
    if a == "" {
      assert a + b == b;
    } else {
      assert (a + b)[1..] == a[1..] + b;
      LexSplits(LexChar(l, a[0]), a[1..], b);
    }
  }

  lemma LexFour(l: Lexer)
    requires l.Lexer? && l.mode == InQuotes && l.word.Some?
    ensures Lex(l, "'\\''") == l.(word := Some(l.word.value + [QUOTE]))
  {
    var text := "'\\''";
    var closed := LexChar(l, text[0]);
    var escaped := LexChar(closed, text[1]);
    var kept := LexChar(escaped, text[2]);
    var reopened := LexChar(kept, text[3]);
    assert text[1..][1..][1..][1..] == "";
    assert Lex(closed, text[1..]) == Lex(escaped, text[1..][1..]);
    assert Lex(escaped, text[1..][1..]) == Lex(kept, text[1..][1..][1..]);
    assert Lex(kept, text[1..][1..][1..]) == reopened;
  }

  lemma LexOne(l: Lexer, c: char)
    ensures Lex(l, [c]) == LexChar(l, c)
  {
    assert [c][1..] == "";
  }

  /** Inside the quotes, the replaced value adds exactly the value to the word. */
  lemma {:induction false} ReplacedIsKept(l: Lexer, value: string)
    requires l.Lexer? && l.mode == InQuotes && l.word.Some?
    ensures Lex(l, ReplaceQuotes(value)) == l.(word := Some(l.word.value + value))
    decreases |value|
  {
    if value == "" {
      assert l.word.value + value == l.word.value;
    } else {
      var c, rest := value[0], value[1..];
      var piece := if c == QUOTE then "'\\''" else [c];
      LexSplits(l, piece, ReplaceQuotes(rest));
      if c == QUOTE { LexFour(l); } else { LexOne(l, c); }
      var next := l.(word := Some(l.word.value + [c]));
      ReplacedIsKept(next, rest);
      assert l.word.value + [c] + rest == l.word.value + value;
    }
  }

  /** Wherever a word may begin or go on, a quoted value adds exactly the value to it, whatever its characters. */
  lemma QuotedIsKept(l: Lexer, value: string)
    requires l.Lexer? && l.mode == Outside
    ensures Lex(l, Quote(value)) == Lexer(l.words, Some(WordSoFar(l) + value), Outside)
  {
    var inside := Lexer(l.words, Some(WordSoFar(l)), InQuotes);
    LexSplits(l, "'" + ReplaceQuotes(value), "'");
    LexSplits(l, "'", ReplaceQuotes(value));
    LexOne(l, QUOTE);
    ReplacedIsKept(inside, value);
    LexOne(Lex(inside, ReplaceQuotes(value)), QUOTE);
  }

  /** The round trip: a quoted value is one word, and that word is the value. */
  lemma QuoteIsOneWord(value: string)
    ensures Words(Quote(value)) == Some([value])
  {
    QuotedIsKept(START, value);
    assert "" + value == value && [] + [value] == [value];
  }

  // ---------------------------------------------------------------- commands

  /** The text so far can be followed by a blank and a further word. */
  predicate EndsInWord(text: string) {
    var l := Lex(START, text);
    l.Lexer? && l.mode == Outside && l.word.Some?
  }

  /** A command followed by quoted arguments, as in `uicache -p %@`. */
  function Command(start: string, arguments: seq<string>): string {
    if arguments == [] then start
    else Command(start, arguments[..|arguments| - 1]) + " " + Quote(arguments[|arguments| - 1])
  }

  /** Where the next word begins, after a blank. */
  function Apart(text: string): Lexer
    requires EndsInWord(text)
  {
    Lexer(Lex(START, text).words + [Lex(START, text).word.value], None, Outside)
  }

  lemma BlankSeparates(text: string)
    requires EndsInWord(text)
    ensures Lex(START, text + " ") == Apart(text) && Words(text) == Some(Apart(text).words)
  {
    LexSplits(START, text, " ");
    LexOne(Lex(START, text), ' ');
  }

  lemma WordFollows(text: string, further: string, word: string)
    requires EndsInWord(text) && Lex(Apart(text), further) == Apart(text).(word := Some(word))
    ensures EndsInWord(text + " " + further) && Words(text + " " + further) == Some(Words(text).value + [word])
  {
    BlankSeparates(text);
    LexSplits(START, text + " ", further);
  }

  lemma QuotedFollows(text: string, value: string)
    requires EndsInWord(text)
    ensures EndsInWord(text + " " + Quote(value)) &&
            Words(text + " " + Quote(value)) == Some(Words(text).value + [value])
  {
    QuotedIsKept(Apart(text), value);
    assert "" + value == value;
    WordFollows(text, Quote(value), value);
  }

  /** No argument can add, split, join or drop a word of the command, or reach outside its own word. */
  lemma {:induction false} ArgumentsStayApart(start: string, arguments: seq<string>)
    requires EndsInWord(start)
    ensures EndsInWord(Command(start, arguments)) &&
            Words(Command(start, arguments)) == Some(Words(start).value + arguments)
  {
    if arguments == [] {
      assert Words(start).value + arguments == Words(start).value;
    } else {
      var others, last := arguments[..|arguments| - 1], arguments[|arguments| - 1];
      ArgumentsStayApart(start, others);
      QuotedFollows(Command(start, others), last);
      assert arguments == others + [last];
      assert Words(start).value + arguments == Words(start).value + others + [last];
    }
  }

  predicate Plain(c: char) { c !in {' ', '\t', QUOTE, BACKSLASH} && !Special(c) }

  predicate IsPlain(word: string) { word != "" && forall i | 0 <= i < |word| :: Plain(word[i]) }

  lemma {:induction false} PlainIsKept(l: Lexer, word: string)
    requires l.Lexer? && l.mode == Outside && IsPlain(word)
    ensures Lex(l, word) == Lexer(l.words, Some(WordSoFar(l) + word), Outside)
    decreases |word|
  {
    var next := LexChar(l, word[0]);
    assert next == Keep(l, word[0], Outside) by { assert Plain(word[0]); }
    if |word| == 1 {
      assert word == [word[0]] && word[1..] == "";
    } else {
      PlainIsKept(next, word[1..]);
      assert WordSoFar(l) + [word[0]] + word[1..] == WordSoFar(l) + word;
    }
  }

  lemma PlainFollows(text: string, word: string)
    requires EndsInWord(text) && IsPlain(word)
    ensures EndsInWord(text + " " + word) && Words(text + " " + word) == Some(Words(text).value + [word])
  {
    PlainIsKept(Apart(text), word);
    assert "" + word == word;
    WordFollows(text, word, word);
  }

  lemma PlainStarts(word: string)
    requires IsPlain(word)
    ensures EndsInWord(word) && Words(word) == Some([word])
  {
    PlainIsKept(START, word);
    assert "" + word == word && [] + [word] == [word];
  }

  /** The command that removes a staged package removes exactly that path. */
  lemma RemoveCommandIsExact(remote: string)
    ensures Words("rm -f " + Quote(remote)) == Some(["rm", "-f", remote])
  {
    PlainStarts("rm");
    PlainFollows("rm", "-f");
    QuotedFollows("rm" + " " + "-f", remote);
    assert "rm" + " " + "-f" + " " == "rm -f ";
    assert ["rm"] + ["-f"] + [remote] == ["rm", "-f", remote];
  }

  lemma SearchWords(find: string, root: string, option: string, pattern: string, action: string)
    requires IsPlain(find) && IsPlain(option) && IsPlain(action)
    ensures Words(find + " " + Quote(root) + " " + option + " " + Quote(pattern) + " " + action) ==
            Some([find, root, option, pattern, action])
  {
    PlainStarts(find);
    QuotedFollows(find, root);
    var rooted := find + " " + Quote(root);
    PlainFollows(rooted, option);
    QuotedFollows(rooted + " " + option, pattern);
    PlainFollows(rooted + " " + option + " " + Quote(pattern), action);
    assert [find] + [root] + [option] + [pattern] + [action] == [find, root, option, pattern, action];
  }

  /** A search, up to its pipe: the root and the pattern are one word each, among the words of the code's own text. */
  lemma FindCommandIsExact(root: string, pattern: string)
    ensures Words("find " + Quote(root) + " -iname " + Quote(pattern) + " -print") ==
            Some(["find", root, "-iname", pattern, "-print"])
  {
    SearchWords("find", root, "-iname", pattern, "-print");
    JoinsBlanks("find", Quote(root), "-iname", Quote(pattern), "-print");
    assert "find" + " " == "find " && " " + "-iname" + " " == " -iname " && " " + "-print" == " -print";
  }

  lemma JoinsBlanks(a: string, b: string, c: string, d: string, e: string)
    ensures a + " " + b + " " + c + " " + d + " " + e == (a + " ") + b + (" " + c + " ") + d + (" " + e)
  {
  }
}
