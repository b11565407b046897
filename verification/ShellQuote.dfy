/**
 `shellQuote` and the shell that reads its output back. The reader follows sections 2.2.2
 (single quotes) and 2.2.3 (double quotes) of the POSIX.1-2017 Shell Command Language.
 */
module ShellQuote {
  import opened Collections
  import opened Text

  const NUL := '\0'

  // The quoting function -----------------------------------------------------------------------

  /** `strings.ReplaceAll(s, "'", "'\"'\"'")` */
  function ReplaceQuotes(s: string): string {
    if s == [] then [] else (if s[0] == '\'' then "'\"'\"'" else [s[0]]) + ReplaceQuotes(s[1..])
  }

  function Quote(s: string): string {
    if s == "" then "''"
    else if '\'' !in s then "'" + s + "'"
    else "'" + ReplaceQuotes(s) + "'"
  }

  lemma {:induction false} NothingToReplace(s: string)
    requires '\'' !in s
    ensures ReplaceQuotes(s) == s
  {
    if s != [] {
      NothingToReplace(s[1..]);
      assert s == [s[0]] + s[1..];
    }
  }

  /** The empty and the quote-free shortcuts agree with the general form. */
  lemma ShortcutsAgree(s: string)
    ensures Quote(s) == "'" + ReplaceQuotes(s) + "'"
  {
    if '\'' !in s {
      NothingToReplace(s);
    }
  }

  /** What the text looks like: `it's` becomes `'it'"'"'s'`. */
  lemma QuoteExample(s: string)
    requires s == "it's"
    ensures Quote(s) == "'it'\"'\"'s'"
  {
    assert s[0] == 'i' && s[1] == 't' && s[2] == '\'' && s[3] == 's';
    ReplaceOne(s[1..], 't');
    ReplaceOne(s[3..], 's');
    assert s[3..][1..] == [] && s[2..][1..] == s[3..] && s[1..][1..] == s[2..] && s[..][1..] == s[1..];
    assert ReplaceQuotes(s[3..]) == "s";
    assert ReplaceQuotes(s[2..]) == "'\"'\"'" + "s";
    assert ReplaceQuotes(s[1..]) == "t" + ("'\"'\"'" + "s");
    assert ReplaceQuotes(s) == "i" + ("t" + ("'\"'\"'" + "s"));
  }

  lemma ReplaceOne(s: string, c: char)
    requires s != [] && s[0] == c && c != '\''
    ensures ReplaceQuotes(s) == [c] + ReplaceQuotes(s[1..])
  {
  }

  // The reader ------------------------------------------------------------------------------------

  datatype Mode = Outside | InSingle | InDouble

  /** Unquoted characters this reader does not give a literal meaning. */
  predicate Special(c: char) {
    c in "|&;<>()$`\\*?[#~"
  }

  function Finish(word: Option<string>, words: seq<string>): seq<string> {
    if word.Some? then words + [word.value] else words
  }

  function Extend(word: Option<string>, t: string): Option<string> {
    Some((if word.Some? then word.value else "") + t)
  }

  /**
   The words of the first line. `None` when a quote is left open, a NUL appears, or the line uses
   an expansion, operator or escape, none of which has a literal reading.
   */
  function Words(input: string, mode: Mode, word: Option<string>, words: seq<string>): Option<seq<string>> {
    if input == [] then (if mode.Outside? then Some(Finish(word, words)) else None)
    else
      var c, rest := input[0], input[1..];
      if c == NUL then None
      else
        match mode
        case InSingle =>
          if c == '\'' then Words(rest, Outside, word, words) else Words(rest, InSingle, Extend(word, [c]), words)
        case InDouble =>
          if c == '"' then Words(rest, Outside, word, words)
          else if c in "$`\\" then None
          else Words(rest, InDouble, Extend(word, [c]), words)
        case Outside =>
          if c == '\'' then Words(rest, InSingle, Extend(word, ""), words)
          else if c == '"' then Words(rest, InDouble, Extend(word, ""), words)
          else if c == '\n' then Some(Finish(word, words))
          else if c == ' ' || c == '\t' then Words(rest, Outside, None, Finish(word, words))
          else if Special(c) then None
          else Words(rest, Outside, Extend(word, [c]), words)
  }

  function ReadLine(input: string): Option<seq<string>> {
    Words(input, Outside, None, [])
  }

  // Round trip --------------------------------------------------------------------------------------

  lemma WordsCons(c: char, rest: string, mode: Mode, w: string, words: seq<string>)
    requires c != NUL
    ensures mode.InSingle? && c != '\'' ==> Words([c] + rest, mode, Some(w), words) == Words(rest, mode, Some(w + [c]), words)
    ensures mode.InSingle? && c == '\'' ==> Words([c] + rest, mode, Some(w), words) == Words(rest, Outside, Some(w), words)
    ensures mode.InDouble? && c == '"' ==> Words([c] + rest, mode, Some(w), words) == Words(rest, Outside, Some(w), words)
    ensures mode.InDouble? && c == '\'' ==> Words([c] + rest, mode, Some(w), words) == Words(rest, mode, Some(w + [c]), words)
    ensures mode.Outside? && c == '\'' ==> Words([c] + rest, mode, Some(w), words) == Words(rest, InSingle, Some(w), words)
    ensures mode.Outside? && c == '"' ==> Words([c] + rest, mode, Some(w), words) == Words(rest, InDouble, Some(w), words)
  {
    assert ([c] + rest)[1..] == rest;
    assert w + "" == w;
  }

  /** `'"'"'` closes the quotes, reads a quoted quote, and opens them again. */
  lemma EscapedQuote(rest: string, w: string, words: seq<string>)
    ensures Words("'\"'\"'" + rest, InSingle, Some(w), words) == Words(rest, InSingle, Some(w + "'"), words)
  {
    var r4 := ['\''] + rest;
    var r3 := ['"'] + r4;
    var r2 := ['\''] + r3;
    var r1 := ['"'] + r2;
    assert "'\"'\"'" + rest == ['\''] + r1;
    WordsCons('\'', r1, InSingle, w, words);
    WordsCons('"', r2, Outside, w, words);
    WordsCons('\'', r3, InDouble, w, words);
    WordsCons('"', r4, InDouble, w + ['\''], words);
    WordsCons('\'', rest, Outside, w + ['\''], words);
  }

  lemma {:induction false} InsideQuotes(s: string, rest: string, w: string, words: seq<string>)
    ensures Words(ReplaceQuotes(s) + rest, InSingle, Some(w), words) ==
            if NUL in s then None else Words(rest, InSingle, Some(w + s), words)
  {
    if s == [] {
      assert ReplaceQuotes(s) + rest == rest && w + s == w;
    } else {
      var c, more := s[0], ReplaceQuotes(s[1..]) + rest;
      assert s == [c] + s[1..];
      if c == '\'' {
        assert ReplaceQuotes(s) + rest == "'\"'\"'" + more;
        EscapedQuote(more, w, words);
        InsideQuotes(s[1..], rest, w + "'", words);
        assert (w + "'") + s[1..] == w + s;
      } else {
        assert ReplaceQuotes(s) + rest == [c] + more;
        if c != NUL {
          WordsCons(c, more, InSingle, w, words);
          InsideQuotes(s[1..], rest, w + [c], words);
          assert (w + [c]) + s[1..] == w + s;
        }
      }
    }
  }

  /** Wherever a word may be in progress, a quoted string extends it by exactly `s`. */
  lemma QuotedExtends(s: string, rest: string, word: Option<string>, words: seq<string>)
    ensures Words(Quote(s) + rest, Outside, word, words) ==
            if NUL in s then None else Words(rest, Outside, Extend(word, s), words)
  {
    var w := if word.Some? then word.value else "";
    ShortcutsAgree(s);
    var close := ['\''] + rest;
    var body := ReplaceQuotes(s) + close;
    assert Quote(s) + rest == ['\''] + body;
    assert (['\''] + body)[1..] == body && w + "" == w;
    InsideQuotes(s, close, w, words);
    WordsCons('\'', rest, InSingle, w + s, words);
  }

  /** A shell reads the quoted string back as the single word `s`, exactly when `s` has no NUL. */
  lemma QuoteRoundTrip(s: string)
    ensures ReadLine(Quote(s)) == Some([s]) <==> NUL !in s
  {
    assert Quote(s) + [] == Quote(s);
    QuotedExtends(s, [], None, []);
    assert "" + s == s && [] + [s] == [s];
  }

  // Export lines ----------------------------------------------------------------------------------------

  predicate Ordinary(c: char) {
    c != NUL && c != '\'' && c != '"' && c != '\n' && c != ' ' && c != '\t' && !Special(c)
  }

  lemma {:induction false} OrdinaryText(p: string, rest: string, word: Option<string>, words: seq<string>)
    requires p != [] && forall c :: c in p ==> Ordinary(c)
    ensures Words(p + rest, Outside, word, words) == Words(rest, Outside, Extend(word, p), words)
  {
    assert p == [p[0]] + p[1..];
    assert Ordinary(p[0]) && (p + rest)[0] == p[0] && (p + rest)[1..] == p[1..] + rest;
    var w := if word.Some? then word.value else "";
    if |p| > 1 {
      OrdinaryText(p[1..], rest, Extend(word, [p[0]]), words);
      assert (w + [p[0]]) + p[1..] == w + p;
    } else {
      assert p[1..] + rest == rest && p == [p[0]];
    }
  }

  /** Reading `NAME='...'` up to the end of the line, after the word `export`. */
  lemma Assignment(assign: string, s: string, more: string)
    requires assign != [] && (forall c :: c in assign ==> Ordinary(c)) && NUL !in s
    ensures Words(assign + (Quote(s) + ("\n" + more)), Outside, None, ["export"]) == Some(["export"] + [assign + s])
  {
    var tail := "\n" + more;
    OrdinaryText(assign, Quote(s) + tail, None, ["export"]);
    QuotedExtends(s, tail, Extend(None, assign), ["export"]);
    assert Extend(Extend(None, assign), s) == Some(assign + s) by {
      assert "" + assign == assign;
    }
    LineEnd(more, assign + s, ["export"]);
  }

  /** `NAME=VALUE` as the `export` utility reads its operand: the name ends at the first `=`. */
  function Assigned(operand: string): Option<(string, string)> {
    if '=' !in operand then None
    else
      var i := Index(operand, '=');
      Some((operand[..i], operand[i + 1..]))
  }

  /** The environment after a line `export NAME=VALUE`; `None` if the line is anything else. */
  function Exported(line: string, env: map<string, string>): Option<map<string, string>> {
    var words := ReadLine(line);
    if words.None? || |words.value| != 2 || words.value[0] != "export" then None
    else
      var a := Assigned(words.value[1]);
      if a.None? then None else Some(env[a.value.0 := a.value.1])
  }

  lemma ExportWords(assign: string, s: string, more: string)
    requires assign != [] && (forall c :: c in assign ==> Ordinary(c)) && NUL !in s
    ensures ReadLine("export" + (" " + (assign + (Quote(s) + ("\n" + more))))) == Some(["export"] + [assign + s])
  {
    var rest := assign + (Quote(s) + ("\n" + more));
    OrdinaryText("export", " " + rest, None, []);
    assert "" + "export" == "export";
    Blank(rest, "export");
    Assignment(assign, s, more);
  }

  /** Whatever the string, the `export NAME='...'` line gives the variable exactly that value and changes no other. */
  lemma ExportLine(name: string, s: string, more: string, env: map<string, string>)
    requires name != [] && (forall c :: c in name ==> Ordinary(c) && c != '=') && NUL !in s
    ensures Exported("export " + name + "=" + Quote(s) + "\n" + more, env) == Some(env[name := s])
  {
    var assign, tail := name + "=", Quote(s) + ("\n" + more);
    ExportText(name, Quote(s), more);
    ExportWords(assign, s, more);
    IndexAfter(name, '=', s);
    var operand := name + ['='] + s;
    assert operand[..|name|] == name && operand[|name| + 1..] == s;
  }

  lemma ExportText(name: string, q: string, more: string)
    ensures "export " + name + "=" + q + "\n" + more == "export" + (" " + ((name + "=") + (q + ("\n" + more))))
  {
    assert "export " == "export" + " ";
  }

  lemma Blank(rest: string, w: string)
    ensures Words(" " + rest, Outside, Some(w), []) == Words(rest, Outside, None, [w])
  {
    assert (" " + rest)[1..] == rest && [] + [w] == [w];
  }

  lemma LineEnd(more: string, w: string, words: seq<string>)
    ensures Words("\n" + more, Outside, Some(w), words) == Some(words + [w])
  {
  }
}
