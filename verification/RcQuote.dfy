/**
 rcQuote and rcQuoteCommand of remoteexec/runner.go, and the part of rc's lexer
 (rc(1)) that reads them back: blanks separate words, and between single quotes
 every character stands for itself except that '' is one quote.
 */
module RcQuote {
  import opened Wrappers

  /** strings.ReplaceAll(s, "'", "''"). */
  function Double(s: string): string {
    if s == "" then "" else (if s[0] == '\'' then "''" else [s[0]]) + Double(s[1..])
  }

  function Quote(s: string): string {
    "'" + Double(s) + "'"
  }

  function QuoteAll(args: seq<string>): string {
    if args == [] then "" else if |args| == 1 then Quote(args[0]) else Quote(args[0]) + " " + QuoteAll(args[1..])
  }

  /** strings.Join. */
  function Join(parts: seq<string>, sep: string): string {
    if parts == [] then "" else if |parts| == 1 then parts[0] else parts[0] + sep + Join(parts[1..], sep)
  }

  /** rcQuoteCommand. */
  method RcQuoteCommand(command: seq<string>) returns (r: string)
    ensures r == QuoteAll(command)
    ensures Lex(r) == Some(command)
  {
    var quoted: seq<string> := [];
    for i := 0 to |command|
      invariant |quoted| == i && forall k :: 0 <= k < i ==> quoted[k] == Quote(command[k])
    {
      quoted := quoted + [Quote(command[i])];
    }
    JoinQuoted(quoted, command);
    LexQuoted(command);
    return Join(quoted, " ");
  }

  lemma {:induction false} JoinQuoted(quoted: seq<string>, command: seq<string>)
    requires |quoted| == |command| && forall k :: 0 <= k < |command| ==> quoted[k] == Quote(command[k])
    ensures Join(quoted, " ") == QuoteAll(command)
  {
    if |command| > 1 {
      JoinQuoted(quoted[1..], command[1..]);
    }
  }

  // ----- rc's lexer

  /** Outside quotes; word is the word being read, if one has begun. */
  function LexPlain(s: string, word: Option<string>): Option<seq<string>>
    decreases |s|, 0
  {
    if s == "" then Some(Words(word))
    else if s[0] == ' ' || s[0] == '\t' then Prepend(Words(word), LexPlain(s[1..], None))
    else if s[0] == '\'' then LexQuoted'(s[1..], Text(word))
    else LexPlain(s[1..], Some(Text(word) + [s[0]]))
  }

  /** Between quotes. */
  function LexQuoted'(s: string, word: string): Option<seq<string>>
    decreases |s|, 1
  {
    if s == "" then None
    else if s[0] != '\'' then LexQuoted'(s[1..], word + [s[0]])
    else if |s| > 1 && s[1] == '\'' then LexQuoted'(s[2..], word + "'")
    else LexPlain(s[1..], Some(word))
  }

  function Words(word: Option<string>): seq<string> {
    if word.None? then [] else [word.value]
  }

  function Text(word: Option<string>): string {
    if word.None? then "" else word.value
  }

  function Prepend(ws: seq<string>, r: Option<seq<string>>): Option<seq<string>> {
    if r.None? then None else Some(ws + r.value)
  }

  /** The words of a line, or None when a quote is left open. */
  function Lex(s: string): Option<seq<string>> {
    LexPlain(s, None)
  }

  /** Reading a quoted argument to its closing quote gives the argument. */
  lemma {:induction false} ReadQuoted(arg: string, rest: string, word: string)
    requires rest == "" || rest[0] != '\''
    ensures LexQuoted'(Double(arg) + ("'" + rest), word) == LexPlain(rest, Some(word + arg))
    decreases |arg|
  {
    var s := Double(arg) + ("'" + rest);
    if arg == "" {
      assert s == "'" + rest && s[1..] == rest;
      assert word + arg == word;
    } else {
      var c, more := [arg[0]], Double(arg[1..]) + ("'" + rest);
      ReadQuoted(arg[1..], rest, word + c);
      assert word + c + arg[1..] == word + arg;
      if arg[0] == '\'' {
        assert s == "''" + more && s[2..] == more;
      } else {
        assert s == c + more && s[1..] == more;
      }
    }
  }

  lemma ReadWord(arg: string, rest: string)
    requires rest == "" || rest[0] != '\''
    ensures LexPlain(Quote(arg) + rest, None) == LexPlain(rest, Some(arg))
  {
    var s := Quote(arg) + rest;
    assert s[1..] == Double(arg) + ("'" + rest);
    ReadQuoted(arg, rest, "");
    assert "" + arg == arg;
  }

  /** The remote shell reads back exactly the arguments, whatever characters they hold. */
  lemma {:induction false} LexQuoted(args: seq<string>)
    ensures Lex(QuoteAll(args)) == Some(args)
  {
    if |args| == 1 {
      ReadWord(args[0], "");
      assert Quote(args[0]) + "" == Quote(args[0]);
      assert args == [args[0]];
    } else if |args| > 1 {
      var rest := " " + QuoteAll(args[1..]);
      assert QuoteAll(args) == Quote(args[0]) + rest;
      ReadWord(args[0], rest);
      assert rest[1..] == QuoteAll(args[1..]);
      LexQuoted(args[1..]);
      assert [args[0]] + args[1..] == args;
    }
  }

  /** Quoting is injective. */
  lemma QuoteInjective(a: seq<string>, b: seq<string>)
    requires QuoteAll(a) == QuoteAll(b)
    ensures a == b
  {
    LexQuoted(a);
    LexQuoted(b);
  }
}
