/**
The command language of sh.c as it is written: pipes of commands, separated by ";" and followed by any
number of "&", where a command is words and redirections in any order, or a line in parentheses and
redirections.  The shell accepts exactly the lines of this syntax and gives them the trees defined here.
*/
module ShellSyntax {
  import opened Shell

  /** A word, or a redirection with its symbol: '<', '>', or '+' for ">>". */
  datatype Piece = Arg(w: string) | File(sym: char, w: string)

  datatype ExecText = Simple(pieces: seq<Piece>) | Block(line: LineText, files: seq<Piece>)

  datatype PipeText = OneCmd(e: ExecText) | PipeTo(e: ExecText, rest: PipeText)

  datatype LineText = Last(p: PipeText, amps: nat) | Then(p: PipeText, amps: nat, rest: LineText)

  // ---------- How it is written ----------

  function PieceToks(x: Piece): (ts: seq<Tok>) { if x.Arg? then [Word(x.w)] else [Sym(x.sym), Word(x.w)] }

  function PiecesToks(ps: seq<Piece>): (ts: seq<Tok>) {
    if ps == [] then [] else PieceToks(ps[0]) + PiecesToks(ps[1..])
  }

  function Amps(n: nat): (ts: seq<Tok>) { if n == 0 then [] else [Sym('&')] + Amps(n - 1) }

  function ExecToks(e: ExecText): (ts: seq<Tok>) {
    match e
    case Simple(ps) => PiecesToks(ps)
    case Block(l, fs) => [Sym('(')] + LineToks(l) + [Sym(')')] + PiecesToks(fs)
  }

  function PipeToks(p: PipeText): (ts: seq<Tok>) {
    match p
    case OneCmd(e) => ExecToks(e)
    case PipeTo(e, rest) => ExecToks(e) + [Sym('|')] + PipeToks(rest)
  }

  function LineToks(l: LineText): (ts: seq<Tok>) {
    match l
    case Last(p, n) => PipeToks(p) + Amps(n)
    case Then(p, n, rest) => PipeToks(p) + Amps(n) + [Sym(';')] + LineToks(rest)
  }

  // ---------- What it stands for ----------

  function WordsOf(ps: seq<Piece>): (ws: seq<string>) {
    if ps == [] then [] else (if ps[0].Arg? then [ps[0].w] else []) + WordsOf(ps[1..])
  }

  /** A later redirection goes around the earlier ones. */
  function Nest(c: Cmd<string>, ps: seq<Piece>): (r: Cmd<string>)
    decreases |ps|
  {
    if ps == [] then c
    else
      var d := Nest(c, ps[..|ps| - 1]);
      match ps[|ps| - 1]
      case Arg(_) => d
      case File(sym, w) => Redir(d, w, if sym == '<' then Read else Write)
  }

  function BackN(c: Cmd<string>, n: nat): (r: Cmd<string>) { if n == 0 then c else Back(BackN(c, n - 1)) }

  function ExecTree(e: ExecText): (c: Cmd<string>) {
    match e
    case Simple(ps) => Nest(Exec(WordsOf(ps)), ps)
    case Block(l, fs) => Nest(LineTree(l), fs)
  }

  function PipeTree(p: PipeText): (c: Cmd<string>) {
    match p
    case OneCmd(e) => ExecTree(e)
    case PipeTo(e, rest) => Pipe(ExecTree(e), PipeTree(rest))
  }

  function LineTree(l: LineText): (c: Cmd<string>) {
    match l
    case Last(p, n) => BackN(PipeTree(p), n)
    case Then(p, n, rest) => List(BackN(PipeTree(p), n), LineTree(rest))
  }

  // ---------- What is allowed ----------

  predicate PieceOk(x: Piece) { x.File? ==> x.sym == '<' || x.sym == '>' || x.sym == '+' }

  predicate PiecesOk(ps: seq<Piece>) { forall k | 0 <= k < |ps| :: PieceOk(ps[k]) }

  predicate AllFiles(ps: seq<Piece>) { forall k | 0 <= k < |ps| :: ps[k].File? }

  predicate ExecWritten(e: ExecText) {
    match e
    case Simple(ps) => PiecesOk(ps) && |WordsOf(ps)| < MAXARGS
    case Block(l, fs) => LineWritten(l) && PiecesOk(fs) && AllFiles(fs)
  }

  predicate PipeWritten(p: PipeText) {
    match p
    case OneCmd(e) => ExecWritten(e)
    case PipeTo(e, rest) => ExecWritten(e) && PipeWritten(rest)
  }

  predicate LineWritten(l: LineText) {
    match l
    case Last(p, _) => PipeWritten(p)
    case Then(p, _, rest) => PipeWritten(p) && LineWritten(rest)
  }

  // ---------- Pieces ----------

  /** The redirections among the pieces, as the parser collects them. */
  function Pairs(ps: seq<Piece>): (rs: seq<(string, Mode)>) {
    if ps == [] then [] else (if ps[0].File? then [(ps[0].w, ModeOf(ps[0].sym))] else []) + Pairs(ps[1..])
  }

  lemma {:induction false} NoPieces(ts: seq<Tok>)
    ensures PiecesOk([]) && AllFiles([]) && ts == PiecesToks([]) + ts && WordsOf([]) == [] && Pairs([]) == []
  {
  }

  lemma {:induction false} Regroup<T>(a: seq<T>, b: seq<T>, c: seq<T>)
    ensures a + b + c == a + (b + c)
  {
  }

  /** The first piece and the others. */
  lemma {:induction false} PiecesCons(x: Piece, qs: seq<Piece>)
    ensures PiecesToks([x] + qs) == PieceToks(x) + PiecesToks(qs)
    ensures WordsOf([x] + qs) == (if x.Arg? then [x.w] else []) + WordsOf(qs)
    ensures Pairs([x] + qs) == (if x.File? then [(x.w, ModeOf(x.sym))] else []) + Pairs(qs)
    ensures PieceOk(x) && PiecesOk(qs) ==> PiecesOk([x] + qs)
    ensures x.File? && AllFiles(qs) ==> AllFiles([x] + qs)
  {
    assert ([x] + qs)[1..] == qs;
  }

  lemma {:induction false} PiecesAdd(a: seq<Piece>, b: seq<Piece>)
    ensures PiecesToks(a + b) == PiecesToks(a) + PiecesToks(b)
    ensures WordsOf(a + b) == WordsOf(a) + WordsOf(b) && Pairs(a + b) == Pairs(a) + Pairs(b)
    decreases |a|
  {
    hide PiecesToks, WordsOf, Pairs, PieceToks, PiecesOk, AllFiles;
    if a == [] {
      NoPieces(PiecesToks(b));
      assert a + b == b && [] + WordsOf(b) == WordsOf(b) && [] + Pairs(b) == Pairs(b);
    } else {
      var x, c := a[0], a[1..];
      assert a == [x] + c && a + b == [x] + (c + b);
      PiecesAdd(c, b);
      PiecesCons(x, c);
      PiecesCons(x, c + b);
      Regroup(PieceToks(x), PiecesToks(c), PiecesToks(b));
      Regroup(if x.Arg? then [x.w] else [], WordsOf(c), WordsOf(b));
      Regroup(if x.File? then [(x.w, ModeOf(x.sym))] else [], Pairs(c), Pairs(b));
    }
  }

  lemma {:induction false} PiecesOne(x: Piece)
    ensures PiecesToks([x]) == PieceToks(x)
    ensures WordsOf([x]) == (if x.Arg? then [x.w] else [])
    ensures Pairs([x]) == (if x.File? then [(x.w, ModeOf(x.sym))] else [])
  {
    assert [x][1..] == [];
  }

  lemma {:induction false} PiecesHead(ps: seq<Piece>, tail: seq<Tok>)
    ensures ps == [] ==> PiecesToks(ps) + tail == tail && WordsOf(ps) == [] && Pairs(ps) == []
    ensures ps != [] ==>
              var ts, x := PiecesToks(ps) + tail, ps[0];
              && |ts| >= |PieceToks(x)| && ts[0] == PieceToks(x)[0] && (x.File? ==> ts[1] == Word(x.w))
              && ts[|PieceToks(x)|..] == PiecesToks(ps[1..]) + tail
              && WordsOf(ps) == (if x.Arg? then [x.w] else []) + WordsOf(ps[1..])
              && Pairs(ps) == (if x.File? then [(x.w, ModeOf(x.sym))] else []) + Pairs(ps[1..])
  {
    if ps != [] {
      Regroup(PieceToks(ps[0]), PiecesToks(ps[1..]), tail);
    }
  }

  lemma {:induction false} WrapLast(c: Cmd<string>, rs: seq<(string, Mode)>, x: (string, Mode))
    ensures Wrap(c, rs + [x]) == Redir(Wrap(c, rs), x.0, x.1)
    decreases |rs|
  {
    if rs == [] {
      assert rs + [x] == [x] && [x][1..] == [];
      assert Wrap(c, [x]) == Wrap(Redir(c, x.0, x.1), []);
    } else {
      assert (rs + [x])[1..] == rs[1..] + [x];
      WrapLast(Redir(c, rs[0].0, rs[0].1), rs[1..], x);
    }
  }

  lemma {:induction false} WrapNone(c: Cmd<string>)
    ensures Wrap(c, []) == c
  {
  }

  /** Wrapping the redirections from the first outwards is nesting them from the last inwards. */
  lemma {:induction false} WrapNest(c: Cmd<string>, ps: seq<Piece>)
    ensures Wrap(c, Pairs(ps)) == Nest(c, ps)
    decreases |ps|
  {
    hide PiecesToks, WordsOf, Wrap;
    if ps == [] {
      assert Pairs(ps) == [];
      WrapNone(c);
    } else {
      var n := |ps| - 1;
      assert ps == ps[..n] + [ps[n]];
      PiecesAdd(ps[..n], [ps[n]]);
      PiecesOne(ps[n]);
      WrapNest(c, ps[..n]);
      if ps[n].File? {
        WrapLast(c, Pairs(ps[..n]), (ps[n].w, ModeOf(ps[n].sym)));
      } else {
        assert Pairs(ps[..n]) + [] == Pairs(ps[..n]);
      }
    }
  }

  lemma {:induction false} FilesNoWords(ps: seq<Piece>)
    requires AllFiles(ps)
    ensures WordsOf(ps) == []
  {
    if ps != [] {
      FilesNoWords(ps[1..]);
    }
  }

  // ---------- Everything written is read ----------

  /** Redirections are read up to the first thing that is not one. */
  lemma {:induction false} RedirsRead(ps: seq<Piece>, tail: seq<Tok>)
    requires PiecesOk(ps) && AllFiles(ps) && !HeadRedir(tail)
    ensures Redirs(PiecesToks(ps) + tail) == Ok(Pairs(ps), tail)
  {
    hide PiecesToks, Pairs;
    PiecesHead(ps, tail);
    if ps != [] {
      assert PieceOk(ps[0]);
      RedirsRead(ps[1..], tail);
    }
  }

  /** How many pieces from the front are redirections. */
  function Lead(ps: seq<Piece>): (n: nat)
    ensures n <= |ps| && AllFiles(ps[..n]) && (n < |ps| ==> ps[n].Arg?)
  {
    if ps == [] || ps[0].Arg? then 0
    else
      assert forall k | 0 < k < 1 + Lead(ps[1..]) :: ps[k] == ps[1..][..Lead(ps[1..])][k - 1];
      1 + Lead(ps[1..])
  }

  lemma {:induction false} LeadRead(ps: seq<Piece>, tail: seq<Tok>)
    requires PiecesOk(ps) && (tail == [] || HeadStops(tail))
    ensures Redirs(PiecesToks(ps) + tail) == Ok(Pairs(ps[..Lead(ps)]), PiecesToks(ps[Lead(ps)..]) + tail)
  {
    hide PiecesToks, WordsOf, Pairs, Redirs, Lead;
    var n := Lead(ps);
    var rest := PiecesToks(ps[n..]) + tail;
    assert ps == ps[..n] + ps[n..];
    PiecesAdd(ps[..n], ps[n..]);
    Regroup(PiecesToks(ps[..n]), PiecesToks(ps[n..]), tail);
    PiecesHead(ps[n..], tail);
    RedirsRead(ps[..n], rest);
  }

  lemma {:induction false} ArgsRead(argv: seq<string>, rs: seq<(string, Mode)>, ps: seq<Piece>, tail: seq<Tok>)
    requires PiecesOk(ps) && (ps == [] || ps[0].Arg?) && (tail == [] || HeadStops(tail))
    requires |argv| + |WordsOf(ps)| < MAXARGS
    ensures Args(argv, rs, PiecesToks(ps) + tail) == Ok(Wrap(Exec(argv + WordsOf(ps)), rs + Pairs(ps)), tail)
    decreases |ps|
  {
    hide Args, Redirs, Wrap, Lead, PiecesToks, WordsOf, Pairs;
    var ts := PiecesToks(ps) + tail;
    ArgsRule(argv, rs, ts);
    PiecesHead(ps, tail);
    if ps == [] {
      assert argv + [] == argv && rs + [] == rs;
    } else {
      var qs := ps[1..];
      var n := Lead(qs);
      LeadRead(qs, tail);
      SplitPieces(qs, n);
      ArgsRead(argv + [ps[0].w], rs + Pairs(qs[..n]), qs[n..], tail);
      Regroup(argv, [ps[0].w], WordsOf(qs));
      Regroup(rs, Pairs(qs[..n]), Pairs(qs[n..]));
      assert [] + Pairs(qs) == Pairs(qs);
    }
  }

  lemma {:induction false} SplitPieces(ps: seq<Piece>, n: nat)
    requires n <= |ps| && AllFiles(ps[..n])
    ensures Pairs(ps) == Pairs(ps[..n]) + Pairs(ps[n..]) && WordsOf(ps) == WordsOf(ps[n..])
  {
    hide PiecesToks, WordsOf, Pairs;
    assert ps == ps[..n] + ps[n..];
    PiecesAdd(ps[..n], ps[n..]);
    FilesNoWords(ps[..n]);
  }

  lemma {:induction false} ExecRule(ts: seq<Tok>)
    requires !HeadIs(ts, '(') && Redirs(ts).Ok?
    ensures ParseExec(ts) == Args([], Redirs(ts).v, Redirs(ts).rest)
  {
    hide Args, Redirs, ParseLine;
  }

  lemma {:induction false} SimpleHead(ps: seq<Piece>, tail: seq<Tok>)
    requires PiecesOk(ps) && (tail == [] || HeadStops(tail))
    ensures !HeadIs(PiecesToks(ps) + tail, '(')
  {
    hide PiecesToks, WordsOf, Pairs;
    PiecesHead(ps, tail);
    assert ps != [] ==> PieceOk(ps[0]);
  }

  /** The words' loop after the redirections in front. */
  lemma {:induction false} SimpleArgs(ps: seq<Piece>, n: nat, tail: seq<Tok>)
    requires PiecesOk(ps) && |WordsOf(ps)| < MAXARGS && (tail == [] || HeadStops(tail)) && n == Lead(ps)
    ensures Args([], Pairs(ps[..n]), PiecesToks(ps[n..]) + tail) == Ok(Nest(Exec(WordsOf(ps)), ps), tail)
  {
    hide Args, Wrap, Lead, Nest, PiecesToks, WordsOf, Pairs, HeadStops;
    SplitPieces(ps, n);
    ArgsRead([], Pairs(ps[..n]), ps[n..], tail);
    assert [] + WordsOf(ps[n..]) == WordsOf(ps);
    WrapNest(Exec(WordsOf(ps)), ps);
  }

  lemma {:induction false} SimpleRead(ps: seq<Piece>, tail: seq<Tok>)
    requires ExecWritten(Simple(ps)) && (tail == [] || HeadStops(tail))
    ensures ParseExec(PiecesToks(ps) + tail) == Ok(ExecTree(Simple(ps)), tail)
  {
    hide Args, Redirs, Lead, Nest, PiecesToks, WordsOf, Pairs, ParseExec, HeadStops, HeadIs, PiecesOk;
    SimpleHead(ps, tail);
    LeadRead(ps, tail);
    SimpleArgs(ps, Lead(ps), tail);
    ExecRule(PiecesToks(ps) + tail);
  }

  /** What may follow a command. */
  predicate Ends(tail: seq<Tok>) { tail == [] || HeadStops(tail) }

  lemma {:induction false} ExecRead(e: ExecText, tail: seq<Tok>)
    requires ExecWritten(e) && Ends(tail)
    ensures ParseExec(ExecToks(e) + tail) == Ok(ExecTree(e), tail)
    decreases e, 1
  {
    match e {
      case Simple(ps) => SimpleRead(ps, tail);
      case Block(l, fs) =>
        LineRead(l, [Sym(')')] + (PiecesToks(fs) + tail));
        BlockRead(l, fs, tail);
    }
  }

  lemma {:induction false} BlockRead(l: LineText, fs: seq<Piece>, tail: seq<Tok>)
    requires PiecesOk(fs) && AllFiles(fs) && Ends(tail)
    requires var close := [Sym(')')] + (PiecesToks(fs) + tail); ParseLine(LineToks(l) + close) == Ok(LineTree(l), close)
    ensures ParseExec(ExecToks(Block(l, fs)) + tail) == Ok(ExecTree(Block(l, fs)), tail)
  {
    hide Redirs, Wrap, Nest, PiecesToks, LineToks, LineTree, ParseLine, PiecesOk, AllFiles;
    var ts := ExecToks(Block(l, fs)) + tail;
    var after := PiecesToks(fs) + tail;
    var close := [Sym(')')] + after;
    assert ts == [Sym('(')] + (LineToks(l) + close);
    assert ts[0] == Sym('(') && ts[1..] == LineToks(l) + close;
    assert close[1..] == after;
    RedirsRead(fs, tail);
    WrapNest(LineTree(l), fs);
  }

  lemma {:induction false} PipeRead(p: PipeText, tail: seq<Tok>)
    requires PipeWritten(p) && Ends(tail) && !HeadIs(tail, '|')
    ensures ParsePipe(PipeToks(p) + tail) == Ok(PipeTree(p), tail)
    decreases p, 2
  {
    hide ParseExec, ExecToks, ExecTree, ExecWritten;
    match p {
      case OneCmd(e) => ExecRead(e, tail);
      case PipeTo(e, rest) =>
        var next := [Sym('|')] + (PipeToks(rest) + tail);
        assert PipeToks(p) + tail == ExecToks(e) + next;
        ExecRead(e, next);
        assert next[1..] == PipeToks(rest) + tail;
        PipeRead(rest, tail);
    }
  }

  lemma {:induction false} BacksRead(c: Cmd<string>, k: nat, n: nat, tail: seq<Tok>)
    requires !HeadIs(tail, '&')
    ensures Backs(BackN(c, k), Amps(n) + tail) == (BackN(c, k + n), tail)
    decreases n
  {
    if n == 0 {
      assert Amps(n) + tail == tail;
    } else {
      assert (Amps(n) + tail)[1..] == Amps(n - 1) + tail;
      BacksRead(c, k + 1, n - 1, tail);
    }
  }

  /** Every line of the syntax is read whole, to its tree, whatever follows a complete line. */
  lemma {:induction false} LineRead(l: LineText, tail: seq<Tok>)
    requires LineWritten(l) && Closed(tail)
    ensures ParseLine(LineToks(l) + tail) == Ok(LineTree(l), tail)
    decreases l, 3
  {
    hide ParsePipe, PipeToks, PipeTree, PipeWritten;
    var after := if l.Last? then tail else [Sym(';')] + (LineToks(l.rest) + tail);
    assert LineToks(l) + tail == PipeToks(l.p) + (Amps(l.amps) + after);
    AmpsHead(l.amps, after);
    PipeRead(l.p, Amps(l.amps) + after);
    BacksRead(PipeTree(l.p), 0, l.amps, after);
    if l.Then? {
      assert after[1..] == LineToks(l.rest) + tail;
      LineRead(l.rest, tail);
    }
  }

  lemma {:induction false} AmpsHead(n: nat, tail: seq<Tok>)
    requires Closed(tail) || HeadIs(tail, ';')
    ensures Ends(Amps(n) + tail) && !HeadIs(Amps(n) + tail, '|')
  {
    if n == 0 {
      assert Amps(n) + tail == tail;
    }
  }

  // ---------- Everything read is written ----------

  lemma {:induction false} RedirsWritten(ts: seq<Tok>) returns (ps: seq<Piece>)
    requires Redirs(ts).Ok?
    ensures PiecesOk(ps) && AllFiles(ps) && ts == PiecesToks(ps) + Redirs(ts).rest && Pairs(ps) == Redirs(ts).v
    decreases |ts|
  {
    hide PiecesToks, Pairs, PiecesOk, AllFiles;
    if HeadRedir(ts) {
      var qs := RedirsWritten(ts[2..]);
      var x := File(ts[0].c, ts[1].w);
      ps := [x] + qs;
      PiecesCons(x, qs);
      assert ts == [ts[0], ts[1]] + ts[2..];
      Regroup(PieceToks(x), PiecesToks(qs), Redirs(ts).rest);
    } else {
      ps := [];
      NoPieces(ts);
    }
  }

  lemma {:induction false} ArgsGather(argv: seq<string>, w: string, ws: seq<string>)
    ensures argv + [w] + ws == argv + ([w] + ([] + ws))
  {
  }

  lemma {:induction false} ArgsWritten(argv: seq<string>, rs: seq<(string, Mode)>,
                                       ts: seq<Tok>) returns (ps: seq<Piece>)
    requires Args(argv, rs, ts).Ok? && |argv| < MAXARGS
    ensures PiecesOk(ps) && |argv| + |WordsOf(ps)| < MAXARGS && ts == PiecesToks(ps) + Args(argv, rs, ts).rest
    ensures Args(argv, rs, ts).v == Wrap(Exec(argv + WordsOf(ps)), rs + Pairs(ps))
    decreases |ts|
  {
    hide Args, Redirs, Wrap, PiecesToks, WordsOf, Pairs;
    ArgsRule(argv, rs, ts);
    if ts == [] || HeadStops(ts) {
      ps := [];
      NoPieces(ts);
      assert argv + [] == argv && rs + [] == rs;
    } else {
      var w := ts[0].w;
      var more := RedirsWritten(ts[1..]);
      var qs := ArgsWritten(argv + [w], rs + Redirs(ts[1..]).v, Redirs(ts[1..]).rest);
      ps := [Arg(w)] + (more + qs);
      PiecesCons(Arg(w), more + qs);
      PiecesAdd(more, qs);
      FilesNoWords(more);
      ArgsGather(argv, w, WordsOf(qs));
      Regroup(rs, Pairs(more), Pairs(qs));
      Regroup(PiecesToks(more), PiecesToks(qs), Args(argv, rs, ts).rest);
      assert ts == [ts[0]] + ts[1..];
      Regroup([ts[0]], PiecesToks(more + qs), Args(argv, rs, ts).rest);
      assert [] + Pairs(more + qs) == Pairs(more + qs);
    }
  }

  lemma {:induction false} BlockGather(ts: seq<Tok>, inner: seq<Tok>, rest: seq<Tok>, files: seq<Tok>, tail: seq<Tok>)
    requires HeadIs(ts, '(') && ts[1..] == inner + rest && HeadIs(rest, ')') && rest[1..] == files + tail
    ensures ts == [Sym('(')] + inner + [Sym(')')] + files + tail
  {
    assert ts == [Sym('(')] + ts[1..] && rest == [Sym(')')] + rest[1..];
  }

  lemma {:induction false} ExecIsWritten(ts: seq<Tok>) returns (e: ExecText)
    requires ParseExec(ts).Ok?
    ensures ExecWritten(e) && ts == ExecToks(e) + ParseExec(ts).rest && ParseExec(ts).v == ExecTree(e)
    decreases |ts|, 1
  {
    hide Args, Redirs, Wrap, Nest, PiecesToks, WordsOf, Pairs;
    if HeadIs(ts, '(') {
      var l := LineIsWritten(ts[1..]);
      var rest := ParseLine(ts[1..]).rest;
      var fs := RedirsWritten(rest[1..]);
      e := Block(l, fs);
      WrapNest(LineTree(l), fs);
      BlockGather(ts, LineToks(l), rest, PiecesToks(fs), ParseExec(ts).rest);
    } else {
      var lead := RedirsWritten(ts);
      var ps := ArgsWritten([], Redirs(ts).v, Redirs(ts).rest);
      e := Simple(lead + ps);
      PiecesAdd(lead, ps);
      FilesNoWords(lead);
      assert [] + WordsOf(ps) == WordsOf(lead + ps);
      WrapNest(Exec(WordsOf(lead + ps)), lead + ps);
      Regroup(PiecesToks(lead), PiecesToks(ps), ParseExec(ts).rest);
    }
  }

  lemma {:induction false} PipeIsWritten(ts: seq<Tok>) returns (p: PipeText)
    requires ParsePipe(ts).Ok?
    ensures PipeWritten(p) && ts == PipeToks(p) + ParsePipe(ts).rest && ParsePipe(ts).v == PipeTree(p)
    decreases |ts|, 2
  {
    hide ParseExec, ExecToks, ExecTree, ExecWritten;
    var e := ExecIsWritten(ts);
    var rest := ParseExec(ts).rest;
    if HeadIs(rest, '|') {
      var q := PipeIsWritten(rest[1..]);
      p := PipeTo(e, q);
      assert rest == [Sym('|')] + rest[1..];
    } else {
      p := OneCmd(e);
    }
  }

  lemma {:induction false} BacksWritten(c: Cmd<string>, k: nat, ts: seq<Tok>) returns (n: nat)
    ensures ts == Amps(n) + Backs(BackN(c, k), ts).1 && Backs(BackN(c, k), ts).0 == BackN(c, k + n)
    decreases |ts|
  {
    if HeadIs(ts, '&') {
      n := BacksWritten(c, k + 1, ts[1..]);
      n := n + 1;
      assert ts == [Sym('&')] + ts[1..];
    } else {
      n := 0;
    }
  }

  lemma {:induction false} SemiGather(before: seq<Tok>, rest: seq<Tok>, line: seq<Tok>, tail: seq<Tok>)
    requires HeadIs(rest, ';') && rest[1..] == line + tail
    ensures before + rest == before + [Sym(';')] + line + tail
  {
    assert rest == [Sym(';')] + rest[1..];
  }

  /** Whatever the parser reads is a line of the syntax, and the tree it makes is that line's. */
  lemma {:induction false} LineIsWritten(ts: seq<Tok>) returns (l: LineText)
    requires ParseLine(ts).Ok?
    ensures LineWritten(l) && ts == LineToks(l) + ParseLine(ts).rest && ParseLine(ts).v == LineTree(l)
    decreases |ts|, 3
  {
    hide ParsePipe, PipeToks, PipeTree, PipeWritten, Backs, Amps;
    var p := PipeIsWritten(ts);
    var rest := ParsePipe(ts).rest;
    var n := BacksWritten(PipeTree(p), 0, rest);
    var rest1 := Backs(PipeTree(p), rest).1;
    Regroup(PipeToks(p), Amps(n), rest1);
    if HeadIs(rest1, ';') {
      var q := LineIsWritten(rest1[1..]);
      l := Then(p, n, q);
      SemiGather(PipeToks(p) + Amps(n), rest1, LineToks(q), ParseLine(ts).rest);
    } else {
      l := Last(p, n);
    }
  }

  // ---------- The language ----------

  /**
  The shell accepts a line exactly when its tokens are a line of the syntax, and the tree it makes is the
  one the syntax gives: pipes bind tighter than "&" and ";", all three group to the right, and of several
  redirections the last is outermost.
  */
  lemma {:induction false} AcceptsExactly(line: string, c: Cmd<string>)
    ensures Parse(line) == Ok(c, []) <==>
              exists l: LineText :: LineWritten(l) && Lex(line) == LineToks(l) && LineTree(l) == c
    ensures Parse(line).Fail? <==> !exists l: LineText :: LineWritten(l) && Lex(line) == LineToks(l)
  {
    hide LineWritten, LineToks, LineTree, ParseLine, Lex;
    var ts := Lex(line);
    if Parse(line).Ok? {
      var l := LineIsWritten(ts);
      assert LineToks(l) + [] == LineToks(l);
    }
    forall l: LineText | LineWritten(l) && Lex(line) == LineToks(l) ensures Parse(line) == Ok(LineTree(l), []) {
      LineRead(l, []);
      assert LineToks(l) + [] == LineToks(l);
    }
  }

  /** Binding and nesting on two short lines. */
  lemma {:induction false} BindingExample(a: string, b: string, c: string)
    ensures ParseLine([Word(a), Sym('|'), Word(b), Sym(';'), Word(c), Sym('&')])
            == Ok(List(Pipe(Exec([a]), Exec([b])), Back(Exec([c]))), [])
    ensures ParseLine([Word(a), Sym('<'), Word(b), Sym('>'), Word(c)])
            == Ok(Redir(Redir(Exec([a]), b, Read), c, Write), [])
  {
    hide ParseLine, ExecToks, ExecTree, ExecWritten;
    var ea, eb, ec := Simple([Arg(a)]), Simple([Arg(b)]), Simple([Arg(c)]);
    OneWord(a);
    OneWord(b);
    OneWord(c);
    var l1 := Last(OneCmd(ec), 1);
    var l := Then(PipeTo(ea, OneCmd(eb)), 0, l1);
    assert PipeWritten(OneCmd(eb)) && PipeToks(OneCmd(eb)) == [Word(b)];
    assert PipeToks(PipeTo(ea, OneCmd(eb))) == [Word(a), Sym('|'), Word(b)] && PipeWritten(PipeTo(ea, OneCmd(eb)));
    assert PipeTree(PipeTo(ea, OneCmd(eb))) == Pipe(Exec([a]), Exec([b]));
    assert Amps(1) == [Sym('&')] + Amps(0);
    assert LineWritten(l1);
    assert LineToks(l1) == [Word(c), Sym('&')];
    assert LineToks(l) + [] == [Word(a), Sym('|'), Word(b), Sym(';'), Word(c), Sym('&')];
    assert LineTree(l1) == Back(BackN(Exec([c]), 0));
    LineRead(l, []);
    TwoFiles(a, b, c);
    var f := Last(OneCmd(Simple([Arg(a), File('<', b), File('>', c)])), 0);
    assert LineToks(f) + [] == [Word(a), Sym('<'), Word(b), Sym('>'), Word(c)];
    LineRead(f, []);
  }

  lemma {:induction false} NestLast(c: Cmd<string>, ps: seq<Piece>, x: Piece)
    ensures Nest(c, []) == c
    ensures Nest(c, ps + [x]) ==
              if x.Arg? then Nest(c, ps) else Redir(Nest(c, ps), x.w, if x.sym == '<' then Read else Write)
  {
    assert (ps + [x])[..|ps|] == ps;
  }

  lemma {:induction false} OneWord(w: string)
    ensures var e := Simple([Arg(w)]); ExecWritten(e) && ExecToks(e) == [Word(w)] && ExecTree(e) == Exec([w])
  {
    PiecesOne(Arg(w));
    NestLast(Exec([w]), [], Arg(w));
  }

  lemma {:induction false} TwoFiles(a: string, b: string, c: string)
    ensures var e := Simple([Arg(a), File('<', b), File('>', c)]);
            && ExecWritten(e) && ExecToks(e) == [Word(a), Sym('<'), Word(b), Sym('>'), Word(c)]
            && ExecTree(e) == Redir(Redir(Exec([a]), b, Read), c, Write)
  {
    hide Nest, PiecesToks, WordsOf, Pairs;
    var x, y := File('<', b), File('>', c);
    var ps := [Arg(a), x, y];
    assert ps == [Arg(a)] + ([x] + [y]);
    PiecesCons(Arg(a), [x] + [y]);
    PiecesCons(x, [y]);
    PiecesOne(y);
    NestLast(Exec([a]), [], Arg(a));
    NestLast(Exec([a]), [Arg(a)], x);
    NestLast(Exec([a]), [Arg(a)] + [x], y);
    assert ps == [Arg(a)] + [x] + [y] && [] + [Arg(a)] == [Arg(a)];
    assert Nest(Exec([a]), [Arg(a)]) == Exec([a]);
    assert WordsOf(ps) == [a];
  }

  // ---------- Tokens and blanks ----------

  /** The shell's white space and symbol characters. */
  const BLANKS: string := " \t\r\n\U{0B}"
  const SYMBOLS: string := "<|>&;()"

  predicate Blank(g: string) { forall k | 0 <= k < |g| :: g[k] in BLANKS }

  /** A word of other characters, or a symbol, '+' standing for ">>". */
  predicate IsToken(t: Tok) {
    match t
    case Word(w) => w != "" && forall k | 0 <= k < |w| :: w[k] !in BLANKS && w[k] !in SYMBOLS
    case Sym(c) => c in SYMBOLS || c == '+'
  }

  lemma {:induction false} CharClasses(c: char)
    ensures White(c) <==> c in BLANKS
    ensures Symbol(c) <==> c in SYMBOLS
  {
    assert BLANKS == [' ', '\t', '\r', '\n', '\U{0B}'] && SYMBOLS == ['<', '|', '>', '&', ';', '(', ')'];
  }

  lemma {:induction false} TokenIsValid(t: Tok)
    ensures IsToken(t) <==> ValidTok(t)
  {
    if t.Word? {
      forall k | 0 <= k < |t.w| ensures WordChar(t.w[k]) <==> t.w[k] !in BLANKS && t.w[k] !in SYMBOLS {
        CharClasses(t.w[k]);
      }
    } else {
      CharClasses(t.c);
    }
  }

  /** Tokens that would be read as one, or as others, if written without a blank between them. */
  predicate Sticks(a: Tok, b: Tok) {
    (a.Word? && b.Word?) || (a == Sym('>') && (b == Sym('>') || b == Sym('+')))
  }

  /** Blanks before each token and at the end, at least one where tokens stick together. */
  ghost predicate Spaced(gaps: seq<string>, ts: seq<Tok>) {
    && |gaps| == |ts| + 1 && (forall k | 0 <= k < |gaps| :: Blank(gaps[k]))
    && (forall k | 0 < k < |ts| :: Sticks(ts[k - 1], ts[k]) ==> gaps[k] != "")
  }

  function Spelled(gaps: seq<string>, ts: seq<Tok>): (u: string)
    requires |gaps| == |ts| + 1
    decreases |ts|
  {
    if ts == [] then gaps[0] else gaps[0] + TokText(ts[0]) + Spelled(gaps[1..], ts[1..])
  }

  lemma {:induction false} LexBlank(g: string, v: string)
    requires Blank(g)
    ensures Lex(g + v) == Lex(v)
  {
    if g == "" {
      assert g + v == v;
    } else {
      CharClasses(g[0]);
      assert (g + v)[1..] == g[1..] + v;
      LexBlank(g[1..], v);
    }
  }

  /** Whether text v leaves token t in front of it as it is. */
  predicate Apart(t: Tok, v: string) {
    v != "" ==> if t.Word? then !WordChar(v[0]) else t == Sym('>') ==> v[0] != '>'
  }

  lemma {:induction false} LexFirst(t: Tok, v: string)
    requires ValidTok(t) && Apart(t, v)
    ensures Lex(TokText(t) + v) == [t] + Lex(v)
  {
    var x := TokText(t);
    var u := x + v;
    assert u[..|x|] == x && u[|x|..] == v;
    if t.Word? {
      WordLenAll(x, v);
    }
    assert First(u) == (t, |x|);
  }

  lemma {:induction false} WordLenAll(x: string, v: string)
    requires ValidWord(x) && (v != "" ==> !WordChar(v[0]))
    ensures WordLen(x + v) == |x| && WordChar((x + v)[0])
  {
    assert forall k | 0 <= k < |x| :: (x + v)[k] == x[k];
    assert v != "" ==> (x + v)[|x|] == v[0];
  }

  lemma {:induction false} SpacedApart(gaps: seq<string>, ts: seq<Tok>)
    requires Spaced(gaps, ts) && ts != [] && forall k | 0 <= k < |ts| :: ValidTok(ts[k])
    ensures Spaced(gaps[1..], ts[1..]) && Apart(ts[0], Spelled(gaps[1..], ts[1..]))
  {
    assert Blank(gaps[1]);
    if gaps[1] != "" {
      CharClasses(gaps[1][0]);
      assert Spelled(gaps[1..], ts[1..])[0] == gaps[1][0];
    } else if |ts| > 1 {
      assert !Sticks(ts[0], ts[1]);
      assert ValidTok(ts[1]) && Spelled(gaps[1..], ts[1..])[0] == TokText(ts[1])[0];
    }
  }

  /** Tokens written with blanks where they are needed, and anywhere else, are read back. */
  lemma {:induction false} LexSpelled(gaps: seq<string>, ts: seq<Tok>)
    requires Spaced(gaps, ts) && forall k | 0 <= k < |ts| :: ValidTok(ts[k])
    ensures Lex(Spelled(gaps, ts)) == ts
    decreases |ts|
  {
    assert Blank(gaps[0]);
    if ts == [] {
      LexBlank(gaps[0], "");
      assert gaps[0] + "" == gaps[0];
    } else {
      hide Lex, Spaced, Apart, ValidTok;
      SpacedApart(gaps, ts);
      LexSpelled(gaps[1..], ts[1..]);
      var v := Spelled(gaps[1..], ts[1..]);
      LexFirst(ts[0], v);
      LexBlank(gaps[0], TokText(ts[0]) + v);
      Regroup(gaps[0], TokText(ts[0]), v);
    }
  }

  /** Every text is its tokens, written with blanks. */
  lemma {:induction false} SpelledLex(u: string) returns (gaps: seq<string>)
    ensures Spaced(gaps, Lex(u)) && u == Spelled(gaps, Lex(u)) && forall k | 0 <= k < |Lex(u)| :: ValidTok(Lex(u)[k])
    decreases |u|
  {
    if u == "" {
      gaps := [""];
    } else if White(u[0]) {
      var more := SpelledLex(u[1..]);
      gaps := [[u[0]] + more[0]] + more[1..];
      CharClasses(u[0]);
      WiderGap(u[0], more, Lex(u));
      assert u == [u[0]] + u[1..];
    } else {
      var more := SpelledLex(u[First(u).1..]);
      gaps := [""] + more;
      FirstToken(u);
      NextToken(First(u).0, Lex(u[First(u).1..]), more);
      assert u == u[..First(u).1] + u[First(u).1..];
    }
  }

  lemma {:induction false} WiderGap(c: char, gaps: seq<string>, ts: seq<Tok>)
    requires Spaced(gaps, ts) && c in BLANKS
    ensures var wider := [[c] + gaps[0]] + gaps[1..]; Spaced(wider, ts) && Spelled(wider, ts) == [c] + Spelled(gaps, ts)
  {
    var wider := [[c] + gaps[0]] + gaps[1..];
    assert Blank(gaps[0]) && Blank([c] + gaps[0]);
    assert wider[1..] == gaps[1..];
    assert forall k | 0 < k < |gaps| :: wider[k] == gaps[k];
  }

  lemma {:induction false} FirstToken(u: string)
    requires u != "" && !White(u[0])
    ensures ValidTok(First(u).0) && u[..First(u).1] == TokText(First(u).0) && Apart(First(u).0, u[First(u).1..])
    ensures Lex(u) == [First(u).0] + Lex(u[First(u).1..])
  {
    assert WordChar(u[0]) ==> WordLen(u) > 0;
  }

  /** One more token in front, without a blank before it. */
  lemma {:induction false} NextToken(t: Tok, ts: seq<Tok>, more: seq<string>)
    requires ValidTok(t) && Spaced(more, ts) && Apart(t, Spelled(more, ts))
             && forall k | 0 <= k < |ts| :: ValidTok(ts[k])
    ensures Spaced([""] + more, [t] + ts) && Spelled([""] + more, [t] + ts) == TokText(t) + Spelled(more, ts)
  {
    var us, gaps := [t] + ts, [""] + more;
    assert us[1..] == ts && gaps[1..] == more && "" + TokText(t) == TokText(t);
    if ts != [] && more[0] == "" {
      NoStick(t, ts, more);
    }
    hide Spelled, Apart, ValidTok, Sticks, TokText;
    forall k | 0 < k < |us| ensures Sticks(us[k - 1], us[k]) ==> gaps[k] != "" {
      if k > 1 {
        assert us[k - 1] == ts[k - 2] && us[k] == ts[k - 1] && gaps[k] == more[k - 1];
      }
    }
  }

  lemma {:induction false} NoStick(t: Tok, ts: seq<Tok>, more: seq<string>)
    requires Spaced(more, ts) && ts != [] && more[0] == "" && ValidTok(ts[0]) && Apart(t, Spelled(more, ts))
    ensures !Sticks(t, ts[0])
  {
    assert Spelled(more, ts)[0] == TokText(ts[0])[0];
  }

  /** The tokens of a text, told without reading it: those it is spelled with. */
  lemma {:induction false} LexExactly(u: string, ts: seq<Tok>)
    ensures Lex(u) == ts <==>
            (forall k | 0 <= k < |ts| :: IsToken(ts[k]))
                && exists gaps: seq<string> :: Spaced(gaps, ts) && u == Spelled(gaps, ts)
  {
    hide Lex, ValidTok, IsToken;
    var gaps := SpelledLex(u);
    forall t: Tok ensures IsToken(t) <==> ValidTok(t) {
      TokenIsValid(t);
    }
    if forall k | 0 <= k < |ts| :: IsToken(ts[k]) {
      if some: seq<string> :| Spaced(some, ts) && u == Spelled(some, ts) {
        LexSpelled(some, ts);
      }
    }
  }
}
