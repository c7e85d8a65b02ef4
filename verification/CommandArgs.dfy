/** Splitting a command line into arguments, with quoting. */
module CommandArgs {
  import opened Options
  import opened Strings
  import opened Sequences

  /** The arguments so far, the one being read, and the open quote if any. */
  datatype Lexer = Lexer(args: seq<string>, current: string, quote: Option<char>)

  const START := Lexer([], "", None)

  predicate IsQuote(c: char) { c == '"' || c == '\'' }

  function Flush(l: Lexer): Lexer {
    if l.current == "" then l else l.(args := l.args + [l.current], current := "")
  }

  /** A quote inside the other kind of quotes matches no case and is dropped. */
  function Step(l: Lexer, c: char): Lexer {
    if IsQuote(c) then
      if l.quote == Some(c) then l.(quote := None)
      else if l.quote == None then l.(quote := Some(c))
      else l
    else if c == ' ' && l.quote == None then Flush(l)
    else l.(current := l.current + [c])
  }

  function Run(l: Lexer, s: string): Lexer
    decreases |s|
  {
    if s == "" then l else Run(Step(l, s[0]), s[1..])
  }

  /** An empty result is replaced by the text itself. */
  function Parse(command: string): seq<string> {
    var args := Flush(Run(START, command)).args;
    if args == [] then [command] else args
  }

  method ParseCommandArgs(command: string) returns (args: seq<string>)
    ensures args == Parse(command)
  {
    args := [];
    var current, inQuote, quoteChar := "", false, ' ';
    var i := 0;
    while i < |command|
      invariant 0 <= i <= |command|
      invariant Run(START, command)
             == Run(Lexer(args, current, if inQuote then Some(quoteChar) else None), command[i..])
    {
      assert command[i..][0] == command[i] && command[i..][1..] == command[i + 1..];
      var r := command[i];
      if r == '"' || r == '\'' {
        if inQuote && r == quoteChar {
          inQuote := false;
        } else if !inQuote {
          inQuote, quoteChar := true, r;
        }
      } else if r == ' ' && !inQuote {
        if |current| > 0 {
          args := args + [current];
          current := "";
        }
      } else {
        current := current + [r];
      }
      i := i + 1;
    }
    if |current| > 0 {
      args := args + [current];
    }
    if |args| == 0 {
      return [command];
    }
  }

  // ------------------------------------------------------------------- quoting

  /** A piece of an argument: bare, in double quotes, or in single quotes. */
  datatype Piece = Bare(s: string) | Double(s: string) | Single(s: string)

  predicate Spellable(p: Piece) {
    match p
    case Bare(s) => forall c :: c in s ==> c != ' ' && !IsQuote(c)
    case Double(s) => '"' !in s
    case Single(s) => '\'' !in s
  }

  function PieceText(p: Piece): string {
    match p
    case Bare(s) => s
    case Double(s) => "\"" + s + "\""
    case Single(s) => "'" + s + "'"
  }

  /** The text written for an argument, and the argument it spells. */
  function Text(ps: seq<Piece>): string {
    if ps == [] then "" else PieceText(ps[0]) + Text(ps[1..])
  }

  function Spelled(ps: seq<Piece>): string {
    if ps == [] then "" else ps[0].s + Spelled(ps[1..])
  }

  predicate AllSpellable(ps: seq<Piece>) { forall i :: 0 <= i < |ps| ==> Spellable(ps[i]) }

  function Texts(args: seq<seq<Piece>>): seq<string> {
    if args == [] then [] else [Text(args[0])] + Texts(args[1..])
  }

  function SpelledAll(args: seq<seq<Piece>>): seq<string> {
    if args == [] then [] else [Spelled(args[0])] + SpelledAll(args[1..])
  }

  /** An argument without its quote characters. */
  function Unquoted(s: string): string {
    if s == "" then ""
    else if IsQuote(s[0]) then Unquoted(s[1..]) else [s[0]] + Unquoted(s[1..])
  }

  /** What is left of a list once quotes are dropped: empty arguments go too. */
  function Surviving(args: seq<string>): seq<string> {
    if args == [] then []
    else if Unquoted(args[0]) == "" then Surviving(args[1..])
    else [Unquoted(args[0])] + Surviving(args[1..])
  }

  predicate QuoteFree(s: string) { forall c :: c in s ==> !IsQuote(c) }

  // ------------------------------------------------------------- running pieces

  lemma {:induction false} RunConcat(l: Lexer, a: string, b: string)
    ensures Run(l, a + b) == Run(Run(l, a), b)
    decreases |a|
  {
    hide Step;
    if a == "" {
      assert a + b == b;
    } else {
      RunConcat(Step(l, a[0]), a[1..], b);
      assert (a + b)[0] == a[0] && (a + b)[1..] == a[1..] + b;
    }
  }

  /** Inside quotes everything but quote characters is kept. */
  lemma {:induction false} RunQuoted(l: Lexer, q: char, s: string)
    requires IsQuote(q) && l.quote == Some(q) && q !in s
    ensures Run(l, s) == l.(current := l.current + Unquoted(s))
    decreases |s|
  {
    if s == "" {
      assert l.current + "" == l.current;
    } else {
      RunQuoted(Step(l, s[0]), q, s[1..]);
      assert l.current + [s[0]] + Unquoted(s[1..]) == l.current + ([s[0]] + Unquoted(s[1..]));
    }
  }

  lemma {:induction false} RunBare(l: Lexer, s: string)
    requires l.quote == None && Spellable(Bare(s))
    ensures Run(l, s) == l.(current := l.current + s) && Unquoted(s) == s
    decreases |s|
  {
    if s == "" {
      assert l.current + "" == l.current;
    } else {
      assert s[0] in s;
      RunBare(Step(l, s[0]), s[1..]);
      assert l.current + [s[0]] + s[1..] == l.current + s && [s[0]] + s[1..] == s;
    }
  }

  lemma RunPiece(l: Lexer, p: Piece)
    requires l.quote == None && Spellable(p)
    ensures Run(l, PieceText(p)) == l.(current := l.current + Unquoted(p.s))
  {
    if p.Bare? {
      RunBare(l, p.s);
    } else {
      var q := if p.Double? then '"' else '\'';
      var inside := l.(quote := Some(q));
      RunQuoted(inside, q, p.s);
      hide Unquoted;
      var text := PieceText(p);
      assert text == [q] + p.s + [q];
      RunConcat(l, [q] + p.s, [q]);
      RunConcat(l, [q], p.s);
      OneStep(l, q);
      OneStep(Run(inside, p.s), q);
    }
  }

  lemma OneStep(l: Lexer, c: char)
    ensures Run(l, [c]) == Step(l, c)
  {
    hide Step;
    assert [c][1..] == "";
  }

  lemma {:induction false} UnquotedConcat(a: string, b: string)
    ensures Unquoted(a + b) == Unquoted(a) + Unquoted(b)
  {
    hide IsQuote;
    if a == "" {
      assert a + b == b;
    } else {
      UnquotedConcat(a[1..], b);
      assert (a + b)[0] == a[0] && (a + b)[1..] == a[1..] + b;
      Assoc([a[0]], Unquoted(a[1..]), Unquoted(b));
    }
  }

  lemma {:induction false} RunPieces(l: Lexer, ps: seq<Piece>)
    requires l.quote == None && AllSpellable(ps)
    ensures Run(l, Text(ps)) == l.(current := l.current + Unquoted(Spelled(ps)))
    decreases |ps|
  {
    hide Spellable, PieceText, Step, Unquoted;
    if ps == [] {
      assert Unquoted("") == "" by { UnquotedConcat("", ""); assert "" + "" == ""; }
      assert l.current + "" == l.current;
    } else {
      RunPiece(l, ps[0]);
      RunConcat(l, PieceText(ps[0]), Text(ps[1..]));
      RunPieces(Run(l, PieceText(ps[0])), ps[1..]);
      UnquotedConcat(ps[0].s, Spelled(ps[1..]));
      assert l.current + Unquoted(ps[0].s) + Unquoted(Spelled(ps[1..]))
          == l.current + (Unquoted(ps[0].s) + Unquoted(Spelled(ps[1..])));
    }
  }

  lemma RunArg(l: Lexer, ps: seq<Piece>)
    requires AllSpellable(ps) && l.quote == None && l.current == ""
    ensures Run(l, Text(ps)) == l.(current := Unquoted(Spelled(ps)))
  {
    hide AllSpellable, Unquoted, Spelled, Text;
    RunPieces(l, ps);
    assert "" + Unquoted(Spelled(ps)) == Unquoted(Spelled(ps));
  }

  /** An argument and the space behind it. */
  lemma RunArgAndSpace(l: Lexer, ps: seq<Piece>, rest: string)
    requires AllSpellable(ps) && l.quote == None && l.current == ""
    ensures Run(l, Text(ps) + [' '] + rest) == Run(Flush(l.(current := Unquoted(Spelled(ps)))), rest)
  {
    hide AllSpellable, Unquoted, Spelled, Text, Flush, Run;
    RunArg(l, ps);
    RunConcat(l, Text(ps) + [' '], rest);
    RunConcat(l, Text(ps), [' ']);
    OneStep(Run(l, Text(ps)), ' ');
  }

  lemma JoinMore(args: seq<seq<Piece>>)
    requires |args| > 1
    ensures Texts(args) != [] && Texts(args[1..]) != []
    ensures Join(Texts(args), ' ') == Text(args[0]) + [' '] + Join(Texts(args[1..]), ' ')
    ensures Surviving(SpelledAll(args))
         == var s := Unquoted(Spelled(args[0]));
            if s == "" then Surviving(SpelledAll(args[1..])) else [s] + Surviving(SpelledAll(args[1..]))
  {
    hide Text, Spelled, Unquoted;
    assert Texts(args)[1..] == Texts(args[1..]);
    assert SpelledAll(args)[1..] == SpelledAll(args[1..]);
  }

  lemma JoinOne(args: seq<seq<Piece>>)
    requires |args| == 1
    ensures Texts(args) != [] && Join(Texts(args), ' ') == Text(args[0])
    ensures Surviving(SpelledAll(args)) == var s := Unquoted(Spelled(args[0])); if s == "" then [] else [s]
  {
    hide Text, Spelled, Unquoted;
    assert args[1..] == [];
  }

  lemma {:induction false} RunArgs(l: Lexer, args: seq<seq<Piece>>)
    requires args != [] && forall i :: 0 <= i < |args| ==> AllSpellable(args[i])
    requires l.quote == None && l.current == ""
    ensures Texts(args) != []
    ensures Flush(Run(l, Join(Texts(args), ' '))) == l.(args := l.args + Surviving(SpelledAll(args)))
    decreases |args|
  {
    hide Spelled, Text, Unquoted, AllSpellable, Join, Texts, SpelledAll, Surviving, Run;
    var s := Unquoted(Spelled(args[0]));
    if |args| == 1 {
      JoinOne(args);
      RunArg(l, args[0]);
      AppendNothing(l.args);
    } else {
      JoinMore(args);
      RunArgAndSpace(l, args[0], Join(Texts(args[1..]), ' '));
      RunArgs(Flush(l.(current := s)), args[1..]);
      Assoc(l.args, [s], Surviving(SpelledAll(args[1..])));
    }
  }

  // -------------------------------------------------------------- main theorems

  /** Quoted arguments come back without their quote characters, and without the
    arguments that consisted of nothing else. */
  lemma QuotedIsUnquoted(args: seq<seq<Piece>>)
    requires args != [] && forall i :: 0 <= i < |args| ==> AllSpellable(args[i])
    ensures var text := Join(Texts(args), ' '); var left := Surviving(SpelledAll(args));
      Parse(text) == if left == [] then [text] else left
  {
    hide Join, Surviving, AllSpellable;
    RunArgs(START, args);
    assert [] + Surviving(SpelledAll(args)) == Surviving(SpelledAll(args));
  }

  lemma {:induction false} UnquotedIs(s: string)
    ensures QuoteFree(Unquoted(s)) && (QuoteFree(s) <==> Unquoted(s) == s) && |Unquoted(s)| <= |s|
  {
    if s != "" {
      UnquotedIs(s[1..]);
      assert s == [s[0]] + s[1..];
      assert s[0] in s;
    }
  }

  lemma {:induction false} SurvivingIs(args: seq<string>)
    requires forall i :: 0 <= i < |args| ==> args[i] != ""
    ensures Surviving(args) == args <==> forall i :: 0 <= i < |args| ==> QuoteFree(args[i])
    ensures |Surviving(args)| <= |args|
  {
    hide QuoteFree, Unquoted;
    if args != [] {
      UnquotedIs(args[0]);
      SurvivingIs(args[1..]);
      assert args == [args[0]] + args[1..];
      assert (forall i :: 0 <= i < |args| ==> QuoteFree(args[i])) <==>
             QuoteFree(args[0]) && forall i :: 0 <= i < |args[1..]| ==> QuoteFree(args[1..][i]);
    }
  }

  lemma {:induction false} TextIsLonger(ps: seq<Piece>)
    requires AllSpellable(ps)
    ensures |Text(ps)| >= |Spelled(ps)| && (|Text(ps)| == |Spelled(ps)| ==> QuoteFree(Spelled(ps)))
  {
    if ps != [] {
      TextIsLonger(ps[1..]);
    }
  }

  lemma {:induction false} ListsAre(args: seq<seq<Piece>>)
    ensures |Texts(args)| == |SpelledAll(args)| == |args|
    ensures forall i :: 0 <= i < |args| ==> Texts(args)[i] == Text(args[i]) && SpelledAll(args)[i] == Spelled(args[i])
  {
    hide Text, Spelled;
    if args != [] {
      ListsAre(args[1..]);
    }
  }

  /** However a list of non-empty arguments is spelled in bare, double-quoted and
    single-quoted pieces, it is parsed back exactly when no argument contains a
    quote character. */
  lemma RoundTripIff(args: seq<seq<Piece>>)
    requires args != [] && forall i :: 0 <= i < |args| ==> AllSpellable(args[i]) && Spelled(args[i]) != ""
    ensures Parse(Join(Texts(args), ' ')) == SpelledAll(args)
       <==> forall i :: 0 <= i < |args| ==> QuoteFree(Spelled(args[i]))
  {
    hide AllSpellable, Spelled, Text, QuoteFree, Parse, Surviving;
    ListsAre(args);
    QuotedIsUnquoted(args);
    SurvivingIs(SpelledAll(args));
    var text := Join(Texts(args), ' ');
    if Surviving(SpelledAll(args)) == [] && SpelledAll(args) == [text] {
      assert Join(Texts(args), ' ') == Text(args[0]);
      TextIsLonger(args[0]);
    }
  }

  lemma OneArgument(p: Piece, s: string)
    requires Unquoted(p.s) == s != "" && Spellable(p)
    ensures Parse(PieceText(p)) == [s]
  {
    var args := [[p]];
    assert [p][1..] == [] && args[1..] == [];
    AppendNothing(PieceText(p));
    AppendNothing(p.s);
    hide Unquoted, PieceText, Spellable;
    assert Text([p]) == PieceText(p) + Text([]) == PieceText(p);
    assert Spelled([p]) == p.s + Spelled([]) == p.s;
    assert Texts(args) == [PieceText(p)] + Texts([]) == [PieceText(p)];
    assert SpelledAll(args) == [p.s] + SpelledAll([]) == [p.s];
    assert [p.s][1..] == [] && Surviving([p.s]) == [s];
    QuotedIsUnquoted(args);
  }

  /** `"it's"` loses its apostrophe. */
  lemma ApostropheIsLost()
    ensures Parse("\"it's\"") == ["its"]
  {
    assert Unquoted("it's") == "its" by {
      assert "it's"[1..] == "t's" && "t's"[1..] == "'s" && "'s"[1..] == "s" && "s"[1..] == "";
    }
    hide Unquoted;
    assert PieceText(Double("it's")) == "\"it's\"";
    hide PieceText;
    OneArgument(Double("it's"), "its");
  }

  /** Whatever the text, no argument that comes out contains a quote, unless
    nothing came out and the text itself is the answer. */
  lemma NoQuotesComeOut(command: string)
    ensures Parse(command) == [command] || forall i :: 0 <= i < |Parse(command)| ==> QuoteFree(Parse(command)[i])
  {
    RunIsQuoteFree(START, command);
  }

  ghost predicate CleanLexer(l: Lexer) {
    QuoteFree(l.current) && forall i :: 0 <= i < |l.args| ==> QuoteFree(l.args[i])
  }

  lemma {:induction false} RunIsQuoteFree(l: Lexer, s: string)
    requires CleanLexer(l)
    ensures CleanLexer(Run(l, s))
    decreases |s|
  {
    if s != "" {
      RunIsQuoteFree(Step(l, s[0]), s[1..]);
    }
  }
}
