/**
The command language of sh.c: its tokens, its grammar as functions on token lists, and printing.
`Fail` stands for the shell's panics on a syntax error or too many arguments.
*/
module Shell {
  const MAXARGS: nat := 10

  /** Symbols are written by their first character, '+' standing for ">>". */
  datatype Tok = Word(w: string) | Sym(c: char)

  /** "<" opens for reading on descriptor 0; ">" and ">>" both create and write on descriptor 1. */
  datatype Mode = Read | Write

  datatype Cmd<W> = Exec(argv: seq<W>) | Redir(cmd: Cmd<W>, file: W, mode: Mode) | Pipe(left: Cmd<W>, right: Cmd<W>)
                  | List(left: Cmd<W>, right: Cmd<W>) | Back(cmd: Cmd<W>)

  datatype Res<T> = Fail | Ok(v: T, rest: seq<Tok>)

  // ---------- Tokens ----------

  predicate White(c: char) { c == ' ' || c == '\t' || c == '\r' || c == '\n' || c == '\U{0B}' }

  predicate Symbol(c: char) { c == '<' || c == '|' || c == '>' || c == '&' || c == ';' || c == '(' || c == ')' }

  predicate WordChar(c: char) { !White(c) && !Symbol(c) }

  function WordLen(u: string): (n: nat)
    ensures n <= |u| && (forall k | 0 <= k < n :: WordChar(u[k])) && (n < |u| ==> !WordChar(u[n]))
  {
    if u != "" && WordChar(u[0]) then 1 + WordLen(u[1..]) else 0
  }

  /** The first token of u, which starts with neither end nor white space, and its length. */
  function First(u: string): (r: (Tok, nat))
    requires u != "" && !White(u[0])
    ensures 0 < r.1 <= |u|
  {
    if u[0] == '>' then (if |u| > 1 && u[1] == '>' then (Sym('+'), 2) else (Sym('>'), 1))
    else if Symbol(u[0]) then (Sym(u[0]), 1)
    else (Word(u[..WordLen(u)]), WordLen(u))
  }

  function Lex(u: string): (ts: seq<Tok>) {
    if u == "" then []
    else if White(u[0]) then Lex(u[1..])
    else [First(u).0] + Lex(u[First(u).1..])
  }

  // ---------- The grammar ----------

  predicate HeadIs(ts: seq<Tok>, c: char) { ts != [] && ts[0] == Sym(c) }

  predicate HeadRedir(ts: seq<Tok>) { HeadIs(ts, '<') || HeadIs(ts, '>') || HeadIs(ts, '+') }

  predicate HeadStops(ts: seq<Tok>) { HeadIs(ts, '|') || HeadIs(ts, ')') || HeadIs(ts, '&') || HeadIs(ts, ';') }

  function ModeOf(c: char): (m: Mode) { if c == '<' then Read else Write }

  /** Redirections around a command, the first one innermost. */
  function Wrap<W>(c: Cmd<W>, rs: seq<(W, Mode)>): (r: Cmd<W>)
    decreases |rs|
  {
    if rs == [] then c else Wrap(Redir(c, rs[0].0, rs[0].1), rs[1..])
  }

  function Redirs(ts: seq<Tok>): (r: Res<seq<(string, Mode)>>)
    ensures r.Ok? ==> |r.rest| <= |ts| && !HeadRedir(r.rest)
    decreases |ts|
  {
    if !HeadRedir(ts) then Ok([], ts)
    else if |ts| < 2 || !ts[1].Word? then Fail
    else
      match Redirs(ts[2..])
      case Fail => Fail
      case Ok(rs, rest) => Ok([(ts[1].w, ModeOf(ts[0].c))] + rs, rest)
  }

  function Args(argv: seq<string>, rs: seq<(string, Mode)>, ts: seq<Tok>): (r: Res<Cmd<string>>)
    ensures r.Ok? ==> |r.rest| <= |ts|
    decreases |ts|
  {
    if ts == [] || HeadStops(ts) then Ok(Wrap(Exec(argv), rs), ts)
    else if !ts[0].Word? || |argv| + 1 >= MAXARGS then Fail
    else
      match Redirs(ts[1..])
      case Fail => Fail
      case Ok(more, rest) => Args(argv + [ts[0].w], rs + more, rest)
  }

  function ParseExec(ts: seq<Tok>): (r: Res<Cmd<string>>)
    ensures r.Ok? ==> |r.rest| <= |ts|
    decreases |ts|, 1
  {
    if HeadIs(ts, '(') then
      match ParseLine(ts[1..])
      case Fail => Fail
      case Ok(c, rest) =>
        if !HeadIs(rest, ')') then Fail
        else
          match Redirs(rest[1..])
          case Fail => Fail
          case Ok(rs, rest2) => Ok(Wrap(c, rs), rest2)
    else
      match Redirs(ts)
      case Fail => Fail
      case Ok(rs, rest) => Args([], rs, rest)
  }

  function ParsePipe(ts: seq<Tok>): (r: Res<Cmd<string>>)
    ensures r.Ok? ==> |r.rest| <= |ts|
    decreases |ts|, 2
  {
    match ParseExec(ts)
    case Fail => Fail
    case Ok(c, rest) =>
      if !HeadIs(rest, '|') then Ok(c, rest)
      else
        match ParsePipe(rest[1..])
        case Fail => Fail
        case Ok(d, rest2) => Ok(Pipe(c, d), rest2)
  }

  function Backs<W>(c: Cmd<W>, ts: seq<Tok>): (r: (Cmd<W>, seq<Tok>))
    ensures |r.1| <= |ts| && !HeadIs(r.1, '&')
    decreases |ts|
  {
    if HeadIs(ts, '&') then Backs(Back(c), ts[1..]) else (c, ts)
  }

  function ParseLine(ts: seq<Tok>): (r: Res<Cmd<string>>)
    ensures r.Ok? ==> |r.rest| <= |ts|
    decreases |ts|, 3
  {
    match ParsePipe(ts)
    case Fail => Fail
    case Ok(c, rest) =>
      var (b, rest1) := Backs(c, rest);
      if !HeadIs(rest1, ';') then Ok(b, rest1)
      else
        match ParseLine(rest1[1..])
        case Fail => Fail
        case Ok(d, rest2) => Ok(List(b, d), rest2)
  }

  /** parsecmd without nulterminate: the whole line must be used up. */
  function Parse(line: string): (r: Res<Cmd<string>>) {
    var r := ParseLine(Lex(line));
    if r.Ok? && r.rest != [] then Fail else r
  }

  // ---------- Printing ----------

  predicate ValidWord(w: string) { w != "" && forall k | 0 <= k < |w| :: WordChar(w[k]) }

  /** The trees the grammar can produce. */
  predicate WellFormed(c: Cmd<string>) {
    match c
    case Exec(argv) => |argv| < MAXARGS && forall k | 0 <= k < |argv| :: ValidWord(argv[k])
    case Redir(d, file, _) => WellFormed(d) && ValidWord(file)
    case Pipe(l, r) => WellFormed(l) && WellFormed(r)
    case List(l, r) => WellFormed(l) && WellFormed(r)
    case Back(d) => WellFormed(d)
  }

  function Words(ws: seq<string>): (ts: seq<Tok>)
    ensures |ts| == |ws| && forall k | 0 <= k < |ws| :: ts[k] == Word(ws[k])
  {
    seq(|ws|, k requires 0 <= k < |ws| => Word(ws[k]))
  }

  function Paren(ts: seq<Tok>): (r: seq<Tok>) { [Sym('(')] + ts + [Sym(')')] }

  function ModeSym(m: Mode): (t: Tok) { if m == Read then Sym('<') else Sym('>') }

  /** A command with every operand in parentheses. */
  function Toks(c: Cmd<string>): (ts: seq<Tok>) {
    match c
    case Exec(argv) => Words(argv)
    case Redir(d, file, m) => Paren(Toks(d)) + [ModeSym(m), Word(file)]
    case Pipe(l, r) => Paren(Toks(l)) + [Sym('|')] + Paren(Toks(r))
    case List(l, r) => Paren(Toks(l)) + [Sym(';')] + Paren(Toks(r))
    case Back(d) => Paren(Toks(d)) + [Sym('&')]
  }

  function TokText(t: Tok): (s: string) {
    match t case Word(w) => w case Sym(c) => if c == '+' then ">>" else [c]
  }

  function Render(ts: seq<Tok>): (s: string) {
    if ts == [] then "" else TokText(ts[0]) + " " + Render(ts[1..])
  }

  function Print(c: Cmd<string>): (s: string) { Render(Toks(c)) }

  // ---------- Round trip ----------

  predicate ValidTok(t: Tok) { if t.Word? then ValidWord(t.w) else t.c == '+' || Symbol(t.c) }

  /** A printed token is read back, whatever follows its space. */
  lemma {:induction false} LexOne(t: Tok, rest: string)
    requires ValidTok(t)
    ensures Lex(TokText(t) + " " + rest) == [t] + Lex(rest)
  {
    var x := TokText(t);
    var u := x + " " + rest;
    FirstIs(t, x, u, rest);
    var v := u[|x|..];
    assert v == " " + rest && v[1..] == rest;
    assert Lex(v) == Lex(rest);
  }

  lemma {:induction false} FirstIs(t: Tok, x: string, u: string, rest: string)
    requires ValidTok(t) && x == TokText(t) && u == x + " " + rest
    ensures !White(u[0]) && First(u) == (t, |x|)
  {
    assert u[..|x|] == x && u[|x|] == ' ';
    if t.Word? {
      WordLenIs(x, u);
    }
  }

  /** Reading a printed token list gives the tokens back. */
  lemma {:induction false} LexRender(ts: seq<Tok>)
    requires forall k | 0 <= k < |ts| :: ValidTok(ts[k])
    ensures Lex(Render(ts)) == ts
  {
    if ts != [] {
      LexRender(ts[1..]);
      LexOne(ts[0], Render(ts[1..]));
    }
  }

  lemma {:induction false} WordLenIs(x: string, u: string)
    requires ValidWord(x) && |x| < |u| && u[..|x|] == x && !WordChar(u[|x|])
    ensures WordLen(u) == |x| && WordChar(u[0])
  {
    assert forall k | 0 <= k < |x| :: u[k] == x[k];
  }

  /** What may follow a complete line: the end or a closing parenthesis. */
  predicate Closed(tail: seq<Tok>) { tail == [] || tail[0] == Sym(')') }

  /** One round of the words' loop, in the grammar. */
  lemma {:induction false} ArgsRule(argv: seq<string>, rs: seq<(string, Mode)>, ts: seq<Tok>)
    ensures Args(argv, rs, ts) ==
            if ts == [] || HeadStops(ts) then Ok(Wrap(Exec(argv), rs), ts)
            else if !ts[0].Word? || |argv| + 1 >= MAXARGS || Redirs(ts[1..]).Fail? then Fail
            else Args(argv + [ts[0].w], rs + Redirs(ts[1..]).v, Redirs(ts[1..]).rest)
  {
  }

  lemma {:induction false} WordsCons(ws: seq<string>, tail: seq<Tok>)
    requires ws != []
    ensures (Words(ws) + tail)[0] == Word(ws[0]) && (Words(ws) + tail)[1..] == Words(ws[1..]) + tail
  {
    assert Words(ws) == [Word(ws[0])] + Words(ws[1..]);
  }

  lemma {:induction false} ArgsTrip(argv: seq<string>, ws: seq<string>, tail: seq<Tok>)
    requires |argv| + |ws| < MAXARGS && (tail == [] || HeadStops(tail))
    ensures Args(argv, [], Words(ws) + tail) == Ok(Exec(argv + ws), tail)
    decreases |ws|
  {
    hide Args, Words;
    var ts := Words(ws) + tail;
    ArgsRule(argv, [], ts);
    if ws == [] {
      assert ts == tail && argv + ws == argv;
    } else {
      WordsCons(ws, tail);
      var next := Words(ws[1..]) + tail;
      NoRedirs(ws[1..], tail);
      ArgsTrip(argv + [ws[0]], ws[1..], tail);
      assert argv + [ws[0]] + ws[1..] == argv + ws;
      var none: seq<(string, Mode)> := [];
      assert none + none == none;
    }
  }

  lemma {:induction false} NoRedirs(ws: seq<string>, tail: seq<Tok>)
    requires tail == [] || HeadStops(tail)
    ensures Redirs(Words(ws) + tail) == Ok([], Words(ws) + tail)
  {
    hide Redirs, Words;
    var ts := Words(ws) + tail;
    if ws == [] {
      assert ts == tail;
    } else {
      WordsCons(ws, tail);
      assert ts[0].Word?;
    }
    NoRedirHead(ts);
  }

  /** A command in parentheses parses to itself, with the redirections that follow. */
  lemma {:induction false} BlockTrip(c: Cmd<string>, tail: seq<Tok>)
    requires WellFormed(c) && !HeadRedir(tail)
    ensures ParseExec(Paren(Toks(c)) + tail) == Ok(c, tail)
    decreases c, 1
  {
    var ts := Paren(Toks(c)) + tail;
    var close := [Sym(')')] + tail;
    LineTrip(c, close);
    assert ts[1..] == Toks(c) + close;
    assert close[1..] == tail;
  }

  lemma {:induction false} LineTrip(c: Cmd<string>, tail: seq<Tok>)
    requires WellFormed(c) && Closed(tail)
    ensures ParseLine(Toks(c) + tail) == Ok(c, tail)
    decreases c, 0, 1
  {
    var ts := Toks(c) + tail;
    match c {
      case Exec(argv) =>
        assert !HeadRedir(ts) && !HeadIs(ts, '(');
        ArgsTrip([], argv, tail);
        assert [] + argv == argv;
        assert ParseExec(ts) == Ok(c, tail);
      case Redir(d, file, m) => RedirTrip(d, file, m, tail);
      case Pipe(l, r) => PipeTrip(l, r, tail);
      case List(l, r) => ListTrip(l, r, tail);
      case Back(d) => BackTrip(d, tail);
    }
  }

  lemma {:induction false} PipeTrip(l: Cmd<string>, r: Cmd<string>, tail: seq<Tok>)
    requires WellFormed(l) && WellFormed(r) && Closed(tail)
    ensures ParseLine(Toks(Pipe(l, r)) + tail) == Ok(Pipe(l, r), tail)
    decreases Pipe(l, r), 0, 0
  {
    var rest := Paren(Toks(r)) + tail;
    var next := [Sym('|')] + rest;
    assert Toks(Pipe(l, r)) + tail == Paren(Toks(l)) + next;
    BlockTrip(l, next);
    BlockTrip(r, tail);
    assert next[1..] == rest;
    assert ParsePipe(rest) == Ok(r, tail);
  }

  lemma {:induction false} ListTrip(l: Cmd<string>, r: Cmd<string>, tail: seq<Tok>)
    requires WellFormed(l) && WellFormed(r) && Closed(tail)
    ensures ParseLine(Toks(List(l, r)) + tail) == Ok(List(l, r), tail)
    decreases List(l, r), 0, 0
  {
    var rest := Paren(Toks(r)) + tail;
    var next := [Sym(';')] + rest;
    assert Toks(List(l, r)) + tail == Paren(Toks(l)) + next;
    BlockTrip(l, next);
    BlockTrip(r, tail);
    assert next[1..] == rest;
    assert ParsePipe(Paren(Toks(l)) + next) == Ok(l, next);
    assert ParsePipe(rest) == Ok(r, tail);
    assert ParseLine(rest) == Ok(r, tail);
  }

  lemma {:induction false} BackTrip(d: Cmd<string>, tail: seq<Tok>)
    requires WellFormed(d) && Closed(tail)
    ensures ParseLine(Toks(Back(d)) + tail) == Ok(Back(d), tail)
    decreases Back(d), 0, 0
  {
    var next := [Sym('&')] + tail;
    assert Toks(Back(d)) + tail == Paren(Toks(d)) + next;
    BlockTrip(d, next);
    assert next[1..] == tail;
    assert ParsePipe(Paren(Toks(d)) + next) == Ok(d, next);
    assert Backs(Back(d), tail) == (Back(d), tail);
    assert Backs(d, next) == (Back(d), tail);
  }

  lemma {:induction false} OneRedir(d: Cmd<string>, file: string, m: Mode, tail: seq<Tok>)
    requires Closed(tail)
    ensures Redirs([ModeSym(m), Word(file)] + tail) == Ok([(file, m)], tail)
            && Wrap(d, [(file, m)]) == Redir(d, file, m)
  {
    var after := [ModeSym(m), Word(file)] + tail;
    assert after[2..] == tail;
    assert Redirs(tail) == Ok([], tail);
    assert [(file, m)] + [] == [(file, m)];
    assert Wrap(d, [(file, m)]) == Wrap(Redir(d, file, m), []);
  }

  lemma {:induction false} RedirTrip(d: Cmd<string>, file: string, m: Mode, tail: seq<Tok>)
    requires WellFormed(d) && ValidWord(file) && Closed(tail)
    ensures ParseLine(Toks(Redir(d, file, m)) + tail) == Ok(Redir(d, file, m), tail)
    decreases Redir(d, file, m), 0, 0
  {
    hide Words, Redirs;
    var ts := Toks(Redir(d, file, m)) + tail;
    var after := [ModeSym(m), Word(file)] + tail;
    var close := [Sym(')')] + after;
    assert ts[1..] == Toks(d) + close;
    LineTrip(d, close);
    assert close[1..] == after;
    OneRedir(d, file, m, tail);
    assert ParseExec(ts) == Ok(Redir(d, file, m), tail);
  }

  lemma {:induction false} ToksValid(c: Cmd<string>)
    requires WellFormed(c)
    ensures forall k | 0 <= k < |Toks(c)| :: ValidTok(Toks(c)[k])
  {
    hide White;
    match c {
      case Exec(_) =>
      case Redir(d, _, _) => ToksValid(d);
      case Pipe(l, r) => ToksValid(l); ToksValid(r);
      case List(l, r) => ToksValid(l); ToksValid(r);
      case Back(d) => ToksValid(d);
    }
  }

  /** Every tree the grammar can produce is what its parenthesised printing parses to. */
  lemma {:induction false} RoundTrip(c: Cmd<string>)
    requires WellFormed(c)
    ensures Parse(Print(c)) == Ok(c, [])
  {
    ToksValid(c);
    LexRender(Toks(c));
    LineTrip(c, []);
    assert Toks(c) + [] == Toks(c);
  }

  // ---------- What the grammar produces ----------

  ghost predicate AllValid(ts: seq<Tok>) { forall k | 0 <= k < |ts| && ts[k].Word? :: ValidWord(ts[k].w) }

  lemma {:induction false} LexValid(u: string)
    ensures AllValid(Lex(u))
    decreases |u|
  {
    if u != "" {
      if White(u[0]) {
        LexValid(u[1..]);
      } else {
        LexValid(u[First(u).1..]);
        assert WordChar(u[0]) ==> WordLen(u) > 0;
      }
    }
  }

  /** The unread tokens are the end of the list. */
  ghost predicate Suffix(rest: seq<Tok>, ts: seq<Tok>) { |rest| <= |ts| && rest == ts[|ts| - |rest|..] }

  lemma {:induction false} SuffixTrans(a: seq<Tok>, b: seq<Tok>, c: seq<Tok>)
    requires Suffix(a, b) && Suffix(b, c)
    ensures Suffix(a, c)
  {
  }

  lemma {:induction false} SuffixValid(rest: seq<Tok>, ts: seq<Tok>)
    requires Suffix(rest, ts) && AllValid(ts)
    ensures AllValid(rest)
  {
    forall k | 0 <= k < |rest| && rest[k].Word? ensures ValidWord(rest[k].w) {
      assert rest[k] == ts[|ts| - |rest| + k];
    }
  }

  lemma {:induction false} Drop(ts: seq<Tok>, n: nat)
    requires n <= |ts|
    ensures Suffix(ts[n..], ts) && (AllValid(ts) ==> AllValid(ts[n..]))
  {
    if AllValid(ts) {
      SuffixValid(ts[n..], ts);
    }
  }

  ghost predicate FilesOk(rs: seq<(string, Mode)>) { forall k | 0 <= k < |rs| :: ValidWord(rs[k].0) }

  ghost predicate ArgvOk(ws: seq<string>) { forall k | 0 <= k < |ws| :: ValidWord(ws[k]) }

  lemma {:induction false} MoreOk(rs: seq<(string, Mode)>, more: seq<(string, Mode)>, ws: seq<string>, w: string)
    ensures FilesOk(rs) && FilesOk(more) ==> FilesOk(rs + more)
    ensures ArgvOk(ws) && ValidWord(w) ==> ArgvOk(ws + [w])
  {
  }

  lemma {:induction false} RedirsOk(ts: seq<Tok>)
    requires AllValid(ts) && Redirs(ts).Ok?
    ensures Suffix(Redirs(ts).rest, ts) && FilesOk(Redirs(ts).v) && AllValid(Redirs(ts).rest)
    decreases |ts|
  {
    if HeadRedir(ts) {
      assert ValidWord(ts[1].w);
      hide Suffix, AllValid, FilesOk, ValidWord;
      Drop(ts, 2);
      RedirsOk(ts[2..]);
      SuffixTrans(Redirs(ts).rest, ts[2..], ts);
      FileOk(ts[1].w, ModeOf(ts[0].c));
      MoreOk([(ts[1].w, ModeOf(ts[0].c))], Redirs(ts[2..]).v, [], "");
    } else {
      assert Redirs(ts) == Ok([], ts);
    }
  }

  lemma {:induction false} FileOk(w: string, m: Mode)
    requires ValidWord(w)
    ensures FilesOk([(w, m)])
  {
  }

  lemma {:induction false} WrapOk(c: Cmd<string>, rs: seq<(string, Mode)>)
    requires WellFormed(c) && FilesOk(rs)
    ensures WellFormed(Wrap(c, rs))
    decreases |rs|
  {
    if rs != [] {
      WrapOk(Redir(c, rs[0].0, rs[0].1), rs[1..]);
    }
  }

  lemma {:induction false} ArgsOk(argv: seq<string>, rs: seq<(string, Mode)>, ts: seq<Tok>)
    requires AllValid(ts) && Args(argv, rs, ts).Ok? && |argv| < MAXARGS && ArgvOk(argv) && FilesOk(rs)
    ensures WellFormed(Args(argv, rs, ts).v) && Suffix(Args(argv, rs, ts).rest, ts)
    decreases |ts|
  {
    if ts == [] || HeadStops(ts) {
      WrapOk(Exec(argv), rs);
    } else {
      assert ValidWord(ts[0].w);
      hide Suffix, AllValid, FilesOk, ArgvOk, ValidWord, WellFormed, Wrap;
      Drop(ts, 1);
      RedirsOk(ts[1..]);
      var rest := Redirs(ts[1..]).rest;
      SuffixTrans(rest, ts[1..], ts);
      MoreOk(rs, Redirs(ts[1..]).v, argv, ts[0].w);
      ArgsOk(argv + [ts[0].w], rs + Redirs(ts[1..]).v, rest);
      SuffixTrans(Args(argv, rs, ts).rest, rest, ts);
    }
  }

  lemma {:induction false} ExecOk(ts: seq<Tok>)
    requires AllValid(ts) && ParseExec(ts).Ok?
    ensures WellFormed(ParseExec(ts).v) && Suffix(ParseExec(ts).rest, ts)
    decreases |ts|, 1
  {
    if HeadIs(ts, '(') {
      assert Suffix(ts[1..], ts);
      SuffixValid(ts[1..], ts);
      LineOk(ts[1..]);
      var rest := ParseLine(ts[1..]).rest;
      SuffixTrans(rest, ts[1..], ts);
      assert Suffix(rest[1..], rest);
      SuffixTrans(rest[1..], rest, ts);
      SuffixValid(rest[1..], ts);
      RedirsOk(rest[1..]);
      WrapOk(ParseLine(ts[1..]).v, Redirs(rest[1..]).v);
      SuffixTrans(ParseExec(ts).rest, rest[1..], ts);
    } else {
      RedirsOk(ts);
      SuffixValid(Redirs(ts).rest, ts);
      ArgsOk([], Redirs(ts).v, Redirs(ts).rest);
      SuffixTrans(ParseExec(ts).rest, Redirs(ts).rest, ts);
    }
  }

  lemma {:induction false} PipeOk(ts: seq<Tok>)
    requires AllValid(ts) && ParsePipe(ts).Ok?
    ensures WellFormed(ParsePipe(ts).v) && Suffix(ParsePipe(ts).rest, ts)
    decreases |ts|, 2
  {
    ExecOk(ts);
    var rest := ParseExec(ts).rest;
    if HeadIs(rest, '|') {
      assert Suffix(rest[1..], rest);
      SuffixTrans(rest[1..], rest, ts);
      SuffixValid(rest[1..], ts);
      PipeOk(rest[1..]);
      SuffixTrans(ParsePipe(ts).rest, rest[1..], ts);
    }
  }

  lemma {:induction false} BacksOk(c: Cmd<string>, ts: seq<Tok>)
    requires WellFormed(c)
    ensures WellFormed(Backs(c, ts).0) && Suffix(Backs(c, ts).1, ts)
    decreases |ts|
  {
    if HeadIs(ts, '&') {
      BacksOk(Back(c), ts[1..]);
      assert Suffix(ts[1..], ts);
      SuffixTrans(Backs(c, ts).1, ts[1..], ts);
    }
  }

  lemma {:induction false} LineOk(ts: seq<Tok>)
    requires AllValid(ts) && ParseLine(ts).Ok?
    ensures WellFormed(ParseLine(ts).v) && Suffix(ParseLine(ts).rest, ts)
    decreases |ts|, 3
  {
    PipeOk(ts);
    var rest := ParsePipe(ts).rest;
    BacksOk(ParsePipe(ts).v, rest);
    var rest1 := Backs(ParsePipe(ts).v, rest).1;
    SuffixTrans(rest1, rest, ts);
    if HeadIs(rest1, ';') {
      assert Suffix(rest1[1..], rest1);
      SuffixTrans(rest1[1..], rest1, ts);
      SuffixValid(rest1[1..], ts);
      LineOk(rest1[1..]);
      SuffixTrans(ParseLine(ts).rest, rest1[1..], ts);
    }
  }

  /** Whatever line the shell accepts, its tree prints to a line that parses to the same tree. */
  lemma {:induction false} ParsePrintParse(line: string)
    requires Parse(line).Ok?
    ensures WellFormed(Parse(line).v) && Parse(Print(Parse(line).v)) == Parse(line)
  {
    LexValid(line);
    LineOk(Lex(line));
    RoundTrip(Parse(line).v);
  }

  // ---------- ">>" ----------

  /** A token list with ">" for every ">>". */
  function Plain(ts: seq<Tok>): (r: seq<Tok>)
    ensures |r| == |ts| && forall k | 0 <= k < |ts| :: r[k] == if ts[k] == Sym('+') then Sym('>') else ts[k]
  {
    seq(|ts|, k requires 0 <= k < |ts| => if ts[k] == Sym('+') then Sym('>') else ts[k])
  }

  function PlainRest<T>(r: Res<T>): (q: Res<T>) { if r.Fail? then Fail else Ok(r.v, Plain(r.rest)) }

  /** Reading on after n tokens, and every test of the next token but those for a redirection, is the same. */
  lemma {:induction false} PlainHead(ts: seq<Tok>, n: nat)
    requires n <= |ts|
    ensures Plain(ts)[n..] == Plain(ts[n..])
    ensures forall c: char | c != '+' && c != '>' :: HeadIs(Plain(ts), c) <==> HeadIs(ts, c)
    ensures HeadRedir(Plain(ts)) <==> HeadRedir(ts)
    ensures HeadStops(Plain(ts)) <==> HeadStops(ts)
  {
  }

  lemma {:induction false} PlainRedirs(ts: seq<Tok>)
    ensures Redirs(Plain(ts)) == PlainRest(Redirs(ts))
    decreases |ts|
  {
    PlainHead(ts, 0);
    if HeadRedir(ts) && |ts| >= 2 && ts[1].Word? {
      PlainHead(ts, 2);
      PlainRedirs(ts[2..]);
    }
  }

  lemma {:induction false} PlainArgs(argv: seq<string>, rs: seq<(string, Mode)>, ts: seq<Tok>)
    ensures Args(argv, rs, Plain(ts)) == PlainRest(Args(argv, rs, ts))
    decreases |ts|
  {
    PlainHead(ts, 0);
    if ts != [] && !HeadStops(ts) && ts[0].Word? && |argv| + 1 < MAXARGS {
      PlainHead(ts, 1);
      PlainRedirs(ts[1..]);
      var more := Redirs(ts[1..]);
      if more.Ok? {
        PlainArgs(argv + [ts[0].w], rs + more.v, more.rest);
      }
    }
  }

  lemma {:induction false} PlainExec(ts: seq<Tok>)
    ensures ParseExec(Plain(ts)) == PlainRest(ParseExec(ts))
    decreases |ts|, 1
  {
    PlainHead(ts, 0);
    if HeadIs(ts, '(') {
      PlainHead(ts, 1);
      PlainLine(ts[1..]);
      var inner := ParseLine(ts[1..]);
      if inner.Ok? {
        PlainHead(inner.rest, 0);
        if HeadIs(inner.rest, ')') {
          PlainHead(inner.rest, 1);
          PlainRedirs(inner.rest[1..]);
        }
      }
    } else {
      PlainRedirs(ts);
      var rs := Redirs(ts);
      if rs.Ok? {
        PlainArgs([], rs.v, rs.rest);
      }
    }
  }

  lemma {:induction false} PlainPipe(ts: seq<Tok>)
    ensures ParsePipe(Plain(ts)) == PlainRest(ParsePipe(ts))
    decreases |ts|, 2
  {
    PlainExec(ts);
    var c := ParseExec(ts);
    if c.Ok? {
      PlainHead(c.rest, 0);
      if HeadIs(c.rest, '|') {
        PlainHead(c.rest, 1);
        PlainPipe(c.rest[1..]);
      }
    }
  }

  lemma {:induction false} PlainBacks(c: Cmd<string>, ts: seq<Tok>)
    ensures Backs(c, Plain(ts)) == (Backs(c, ts).0, Plain(Backs(c, ts).1))
    decreases |ts|
  {
    PlainHead(ts, 0);
    if HeadIs(ts, '&') {
      PlainHead(ts, 1);
      PlainBacks(Back(c), ts[1..]);
    }
  }

  /** ">>" means ">": writing one for the other changes neither success, nor the tree, nor how much is read. */
  lemma {:induction false} PlainLine(ts: seq<Tok>)
    ensures ParseLine(Plain(ts)) == PlainRest(ParseLine(ts))
    decreases |ts|, 3
  {
    PlainPipe(ts);
    var c := ParsePipe(ts);
    if c.Ok? {
      PlainBacks(c.v, c.rest);
      var rest := Backs(c.v, c.rest).1;
      PlainHead(rest, 0);
      if HeadIs(rest, ';') {
        PlainHead(rest, 1);
        PlainLine(rest[1..]);
      }
    }
  }

  /** The same for lines: no printed line tells ">>" from ">". */
  lemma {:induction false} AppendIsWrite(ts: seq<Tok>)
    requires forall k | 0 <= k < |ts| :: ValidTok(ts[k])
    ensures Parse(Render(Plain(ts))) == Parse(Render(ts))
  {
    LexRender(ts);
    LexRender(Plain(ts));
    PlainLine(ts);
    assert Plain([]) == [];
  }

  /** A line with ">>", and its tree: the one for ">", which opens b from its start. */
  lemma {:induction false} AppendExample()
    ensures Parse("a >> b ") == Parse("a > b ") == Ok(Redir(Exec(["a"]), "b", Write), [])
  {
    hide Lex, ParseLine, Render;
    var ts := [Word("a"), Sym('>'), Word("b")];
    var us := [Word("a"), Sym('+'), Word("b")];
    assert Plain(us) == ts;
    RenderThree(ts);
    RenderThree(us);
    assert Render(ts) == "a > b " && Render(us) == "a >> b ";
    AppendIsWrite(us);
    LexRender(ts);
    OneWordOneFile("a", "b");
  }

  lemma {:induction false} OneWordOneFile(w: string, file: string)
    ensures ParseLine([Word(w), Sym('>'), Word(file)]) == Ok(Redir(Exec([w]), file, Write), [])
  {
    hide Args, Redirs, Wrap;
    var ts, after := [Word(w), Sym('>'), Word(file)], [ModeSym(Write), Word(file)];
    assert ts[1..] == after && after + [] == after;
    OneRedir(Exec([w]), file, Write, []);
    ArgsRule([], [], ts);
    ArgsRule([w], [(file, Write)], []);
    assert [] + [w] == [w] && [] + [(file, Write)] == [(file, Write)];
    NoRedirHead(ts);
    assert ParseExec(ts) == Ok(Redir(Exec([w]), file, Write), []);
    assert ParsePipe(ts) == Ok(Redir(Exec([w]), file, Write), []);
  }

  lemma {:induction false} NoRedirHead(ts: seq<Tok>)
    requires !HeadRedir(ts)
    ensures Redirs(ts) == Ok([], ts)
  {
  }

  lemma {:induction false} RenderThree(ts: seq<Tok>)
    requires |ts| == 3
    ensures Render(ts) == TokText(ts[0]) + " " + TokText(ts[1]) + " " + TokText(ts[2]) + " "
  {
    assert ts[1..][1..] == [ts[2]] && ts[1..] == [ts[1], ts[2]];
    assert Render([ts[2]]) == TokText(ts[2]) + " " + Render([]);
    assert Render([ts[1], ts[2]]) == TokText(ts[1]) + " " + Render([ts[2]]);
  }
}
