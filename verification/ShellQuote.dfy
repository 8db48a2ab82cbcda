/** shellJoin and the part of the POSIX shell that reads its output: token recognition
    (section 2.3 of POSIX.1-2017 XCU), backslash and single quotes (2.2.1, 2.2.2) and quote
    removal (2.6.7).  Input that would need any other feature of the shell is refused. */
module ShellQuote {
  import opened Option
  import opened Strings

  // ----------------------------------------------------------------- printer

  /** strings.ReplaceAll(a, "'", `'\''`). */
  function Escape(a: string): string {
    if a == "" then "" else (if a[0] == '\'' then "'\\''" else [a[0]]) + Escape(a[1..])
  }

  /** Every single quote becomes these four characters, everything else stays. */
  lemma {:induction false} EscapeNone(a: string)
    requires '\'' !in a
    ensures Escape(a) == a
  {
    if a != "" { EscapeNone(a[1..]); }
  }

  lemma {:induction false} EscapeExactly(a: string, b: string)
    requires '\'' !in a
    ensures Escape(a + "'" + b) == a + "'\\''" + Escape(b)
  {
    var s := a + "'" + b;
    if a == "" {
      assert s[1..] == b;
    } else {
      EscapeExactly(a[1..], b);
      assert s[1..] == a[1..] + "'" + b;
      assert [a[0]] + (a[1..] + "'\\''" + Escape(b)) == a + "'\\''" + Escape(b);
    }
  }

  function Quote(a: string): string { "'" + Escape(a) + "'" }

  function QuoteAll(args: seq<string>): seq<string> {
    if args == [] then [] else [Quote(args[0])] + QuoteAll(args[1..])
  }

  method ShellJoin(args: seq<string>) returns (r: string)
    ensures r == Join(QuoteAll(args), " ")
  {
    var q := new string[|args|];
    for i := 0 to |args|
      invariant forall k :: 0 <= k < i ==> q[k] == Quote(args[k])
    {
      q[i] := "'" + Escape(args[i]) + "'";
    }
    QuoteAllAt(args);
    assert q[..] == QuoteAll(args);
    r := Join(q[..], " ");
  }

  lemma {:induction false} QuoteAllAt(args: seq<string>)
    ensures |QuoteAll(args)| == |args| && forall k :: 0 <= k < |args| ==> QuoteAll(args)[k] == Quote(args[k])
  {
    if args != [] { QuoteAllAt(args[1..]); }
  }

  // ------------------------------------------------------------------ parser

  datatype Mode = Plain | Single | Escaped

  predicate IsBlank(c: char) { c == ' ' || c == '\t' }

  /** Characters that mean something to the shell when they are not quoted. */
  predicate IsSpecial(c: char) { c in "|&;<>()$`\"#*?[]~=%!{}\n" }

  function Close(current: Option<string>): seq<string> {
    match current case None => [] case Some(t) => [t]
  }

  function Extend(current: Option<string>, c: char): Option<string> {
    match current case None => Some([c]) case Some(t) => Some(t + [c])
  }

  /** Token recognition: the tokens of one line, quotes still in place.  A backslash before a
      newline joins lines; None when the input is incomplete or needs more of the shell. */
  function Tokens(s: string, mode: Mode, current: Option<string>): Option<seq<string>> {
    if s == "" then
      if mode == Plain then Some(Close(current)) else None
    else
      var c, rest := s[0], s[1..];
      match mode
      case Single => Tokens(rest, if c == '\'' then Plain else Single, Extend(current, c))
      case Escaped =>
        if c == '\n' && current.Some? && current.value != ""
        then Tokens(rest, Plain, var t := current.value[..|current.value| - 1]; if t == "" then None else Some(t))
        else Tokens(rest, Plain, Extend(current, c))
      case Plain =>
        if c == '\'' then Tokens(rest, Single, Extend(current, c))
        else if c == '\\' then Tokens(rest, Escaped, Extend(current, c))
        else if IsBlank(c) then
          match Tokens(rest, Plain, None)
          case None => None
          case Some(ts) => Some(Close(current) + ts)
        else if IsSpecial(c) then None
        else Tokens(rest, Plain, Extend(current, c))
  }

  /** Quote removal. */
  function Unquote(t: string, mode: Mode): string {
    if t == "" then ""
    else
      var c, rest := t[0], t[1..];
      match mode
      case Single => if c == '\'' then Unquote(rest, Plain) else [c] + Unquote(rest, Single)
      case Escaped => [c] + Unquote(rest, Plain)
      case Plain =>
        if c == '\'' then Unquote(rest, Single)
        else if c == '\\' then Unquote(rest, Escaped)
        else [c] + Unquote(rest, Plain)
  }

  function UnquoteAll(ts: seq<string>): seq<string> {
    if ts == [] then [] else [Unquote(ts[0], Plain)] + UnquoteAll(ts[1..])
  }

  /** The argument list the shell makes of a simple command. */
  function Words(s: string): Option<seq<string>> {
    match Tokens(s, Plain, None)
    case None => None
    case Some(ts) => Some(UnquoteAll(ts))
  }

  /** A character without a meaning of its own. */
  predicate IsOrdinary(c: char) { !IsBlank(c) && !IsSpecial(c) && c != '\'' && c != '\\' }

  /** Apart from quotes the parser is the usual one: ordinary text is one word. */
  lemma {:induction false} OrdinaryText(s: string, current: string)
    requires forall c :: c in s ==> IsOrdinary(c)
    ensures Tokens(s, Plain, Some(current)) == Some([current + s]) && Unquote(s, Plain) == s
  {
    if s == "" {
      assert current + "" == current;
    } else {
      assert s[0] in s && IsOrdinary(s[0]);
      OrdinaryText(s[1..], current + [s[0]]);
      assert current + [s[0]] + s[1..] == current + s && [s[0]] + s[1..] == s;
    }
  }

  // -------------------------------------------------------------- round trip

  /** Reading the escaped text and the closing quote inside single quotes. */
  lemma {:induction false} TokensBody(a: string, rest: string, t: string)
    ensures Tokens(Escape(a) + "'" + rest, Single, Some(t)) == Tokens(rest, Plain, Some(t + Escape(a) + "'"))
    decreases |a|
  {
    var s := Escape(a) + "'" + rest;
    if a == "" {
      assert s[1..] == rest && t + "" + "'" == t + ['\''];
    } else {
      var tail := Escape(a[1..]) + "'" + rest;
      if a[0] == '\'' {
        assert s == "'\\''" + tail;
        FourSteps(tail, t);
        TokensBody(a[1..], rest, t + "'\\''");
        assert t + "'\\''" + Escape(a[1..]) + "'" == t + Escape(a) + "'";
      } else {
        assert s[0] == a[0] && s[1..] == tail;
        TokensBody(a[1..], rest, t + [a[0]]);
        assert t + [a[0]] + Escape(a[1..]) + "'" == t + Escape(a) + "'";
      }
    }
  }

  /** Close the quotes, an escaped quote, open them again. */
  lemma {:induction false} FourSteps(tail: string, t: string)
    ensures Tokens("'\\''" + tail, Single, Some(t)) == Tokens(tail, Single, Some(t + "'\\''"))
  {
    var s1, s2, s3 := "\\''" + tail, "''" + tail, "'" + tail;
    assert ("'\\''" + tail)[1..] == s1 && s1[1..] == s2 && s2[1..] == s3 && s3[1..] == tail;
    assert Tokens("'\\''" + tail, Single, Some(t)) == Tokens(s1, Plain, Some(t + "'"));
    assert Tokens(s1, Plain, Some(t + "'")) == Tokens(s2, Escaped, Some(t + "'" + "\\"));
    assert Tokens(s2, Escaped, Some(t + "'" + "\\")) == Tokens(s3, Plain, Some(t + "'" + "\\" + "'"));
    assert Tokens(s3, Plain, Some(t + "'" + "\\" + "'")) == Tokens(tail, Single, Some(t + "'" + "\\" + "'" + "'"));
    assert t + "'" + "\\" + "'" + "'" == t + "'\\''";
  }

  /** A quoted argument is one token, quotes and all. */
  lemma {:induction false} TokensQuote(a: string, rest: string)
    ensures Tokens(Quote(a) + rest, Plain, None) == Tokens(rest, Plain, Some(Quote(a)))
  {
    assert (Quote(a) + rest)[1..] == Escape(a) + "'" + rest;
    TokensBody(a, rest, "'");
    assert "'" + Escape(a) + "'" == Quote(a);
  }

  lemma {:induction false} UnquoteFour(tail: string)
    ensures Unquote("'\\''" + tail, Single) == ['\''] + Unquote(tail, Single)
  {
    var s1, s2, s3 := "\\''" + tail, "''" + tail, "'" + tail;
    assert ("'\\''" + tail)[1..] == s1 && s1[1..] == s2 && s2[1..] == s3 && s3[1..] == tail;
    assert Unquote("'\\''" + tail, Single) == Unquote(s1, Plain);
    assert Unquote(s1, Plain) == Unquote(s2, Escaped);
    assert Unquote(s2, Escaped) == ['\''] + Unquote(s3, Plain);
    assert Unquote(s3, Plain) == Unquote(tail, Single);
  }

  lemma {:induction false} UnquoteBody(a: string)
    ensures Unquote(Escape(a) + "'", Single) == a
  {
    var s := Escape(a) + "'";
    if a == "" {
      assert s[1..] == "";
    } else {
      var tail := Escape(a[1..]) + "'";
      UnquoteBody(a[1..]);
      if a[0] == '\'' {
        assert s == "'\\''" + tail;
        UnquoteFour(tail);
      } else {
        assert s[0] == a[0] && s[1..] == tail;
      }
      assert a == [a[0]] + a[1..];
    }
  }

  lemma {:induction false} UnquoteQuote(a: string)
    ensures Unquote(Quote(a), Plain) == a
  {
    assert Quote(a)[1..] == Escape(a) + "'";
    UnquoteBody(a);
  }

  /** The tokens of the joined line are the quoted arguments: each starts with a quote, so
      none of them is an operator, a reserved word, an assignment or a comment. */
  lemma {:induction false} TokensOfJoin(args: seq<string>)
    ensures Tokens(Join(QuoteAll(args), " "), Plain, None) == Some(QuoteAll(args))
  {
    var q := QuoteAll(args);
    if |args| == 1 {
      TokensQuote(args[0], "");
      assert q == [Quote(args[0])] && Quote(args[0]) + "" == Quote(args[0]);
    } else if |args| > 1 {
      var tail := Join(QuoteAll(args[1..]), " ");
      TokensOfJoin(args[1..]);
      assert |q| > 1 by { QuoteAllAt(args); }
      assert q[0] == Quote(args[0]) && q[1..] == QuoteAll(args[1..]);
      assert Join(q, " ") == Quote(args[0]) + (" " + tail);
      TokensQuote(args[0], " " + tail);
      assert (" " + tail)[1..] == tail;
    }
  }

  lemma {:induction false} UnquoteAllQuoted(args: seq<string>)
    ensures UnquoteAll(QuoteAll(args)) == args
  {
    if args != [] {
      UnquoteQuote(args[0]);
      UnquoteAllQuoted(args[1..]);
    }
  }

  /** MAIN RESULT.  For every argument list, empty and hostile arguments included, the shell
      reads the joined line back as exactly that list. */
  lemma {:induction false} ShellRoundTrip(args: seq<string>)
    ensures Words(Join(QuoteAll(args), " ")) == Some(args)
  {
    TokensOfJoin(args);
    UnquoteAllQuoted(args);
  }

  /** So different argument lists never give the same line. */
  lemma {:induction false} ShellJoinInjective(a: seq<string>, b: seq<string>)
    requires Join(QuoteAll(a), " ") == Join(QuoteAll(b), " ")
    ensures a == b
  {
    ShellRoundTrip(a);
    ShellRoundTrip(b);
  }
}
