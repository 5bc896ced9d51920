/**
The parser of sh.c as it runs: a cursor over the line, words kept as start and end positions, and
nulterminate writing over the buffer afterwards.  Each method is proved against the grammar of module
Shell on the tokens that lie ahead of the cursor.
*/
module ShellParser {
  import opened Shell
  import Syntax = ShellSyntax

  /** A word by the positions of its first character and of the one after its last. */
  type Span = (nat, nat)

  function Slice(s: string, w: Span): (r: string) { if w.0 <= w.1 <= |s| then s[w.0..w.1] else "" }

  /** s[q..eq] is a whole word: it cannot be extended to the right. */
  ghost predicate WordAt(s: string, w: Span) {
    w.0 < w.1 <= |s| && (forall k | w.0 <= k < w.1 :: WordChar(s[k])) && (w.1 < |s| ==> !WordChar(s[w.1]))
  }

  ghost function Slices(s: string, ws: seq<Span>): (r: seq<string>)
    ensures |r| == |ws|
  {
    seq(|ws|, k requires 0 <= k < |ws| => Slice(s, ws[k]))
  }

  ghost function Files(s: string, rs: seq<(Span, Mode)>): (r: seq<(string, Mode)>)
    ensures |r| == |rs|
  {
    seq(|rs|, k requires 0 <= k < |rs| => (Slice(s, rs[k].0), rs[k].1))
  }

  /** The command that a tree of positions stands for. */
  ghost function Text(s: string, c: Cmd<Span>): (r: Cmd<string>) {
    match c
    case Exec(argv) => Exec(Slices(s, argv))
    case Redir(d, file, m) => Redir(Text(s, d), Slice(s, file), m)
    case Pipe(l, r) => Pipe(Text(s, l), Text(s, r))
    case List(l, r) => List(Text(s, l), Text(s, r))
    case Back(d) => Back(Text(s, d))
  }

  /** All the words of a tree. */
  function Spans(c: Cmd<Span>): (r: set<Span>) {
    match c
    case Exec(argv) => set k | 0 <= k < |argv| :: argv[k]
    case Redir(d, file, _) => Spans(d) + {file}
    case Pipe(l, r) => Spans(l) + Spans(r)
    case List(l, r) => Spans(l) + Spans(r)
    case Back(d) => Spans(d)
  }

  ghost predicate AllWords(s: string, c: Cmd<Span>) { forall w | w in Spans(c) :: WordAt(s, w) }

  lemma {:induction false} WrapText(s: string, c: Cmd<Span>, rs: seq<(Span, Mode)>)
    requires AllWords(s, c) && forall k | 0 <= k < |rs| :: WordAt(s, rs[k].0)
    ensures Text(s, Wrap(c, rs)) == Wrap(Text(s, c), Files(s, rs)) && AllWords(s, Wrap(c, rs))
    decreases |rs|
  {
    if rs != [] {
      WrapText(s, Redir(c, rs[0].0, rs[0].1), rs[1..]);
      assert Files(s, rs)[1..] == Files(s, rs[1..]);
    }
  }

  // ---------- The cursor and the token list ----------

  /** At a place that is not white space the next character decides the next token. */
  lemma {:induction false} Ahead(s: string, p: nat)
    requires p <= |s| && (p == |s| || !White(s[p]))
    ensures p == |s| ==> Lex(s[p..]) == []
    ensures p < |s| ==> var f := First(s[p..]); p + f.1 <= |s| && Lex(s[p..]) == [f.0] + Lex(s[p + f.1..])
  {
    if p < |s| {
      assert s[p..][First(s[p..]).1..] == s[p + First(s[p..]).1..];
    }
  }

  /** What peek sees is the head of the token list. */
  lemma {:induction false} HeadAhead(s: string, p: nat)
    requires p <= |s| && (p == |s| || !White(s[p]))
    ensures forall c: char | Symbol(c) && c != '>' :: HeadIs(Lex(s[p..]), c) <==> p < |s| && s[p] == c
    ensures HeadRedir(Lex(s[p..])) <==> p < |s| && (s[p] == '<' || s[p] == '>')
    ensures Lex(s[p..]) == [] <==> p == |s|
  {
    Ahead(s, p);
  }

  class Parser {
    const s: string
    var p: nat

    ghost predicate Valid()
      reads this
    {
      p <= |s| && '\0' !in s
    }

    /** The tokens still to be read. */
    ghost function Rest(): (ts: seq<Tok>)
      requires p <= |s|
      reads this
    {
      Lex(s[p..])
    }

    constructor (line: string)
      requires '\0' !in line
      ensures Valid() && s == line && p == 0
    {
      s, p := line, 0;
    }

    method SkipWhite()
      requires Valid()
      modifies this
      ensures Valid() && old(p) <= p && Rest() == old(Rest()) && (p == |s| || !White(s[p]))
    {
      while p < |s| && White(s[p])
        invariant old(p) <= p <= |s| && Lex(s[p..]) == old(Lex(s[p..]))
      {
        assert s[p..][1..] == s[p + 1..];
        p := p + 1;
      }
    }

    /** gettoken's loop over the characters of a word. */
    method ScanWord()
      requires Valid() && p < |s| && WordChar(s[p])
      modifies this
      ensures Valid() && p == old(p) + WordLen(s[old(p)..]) && WordAt(s, (old(p), p))
              && Slice(s, (old(p), p)) == s[old(p)..][..WordLen(s[old(p)..])]
    {
      ghost var q, n := p, WordLen(s[p..]);
      while p < |s| && !White(s[p]) && !Symbol(s[p])
        invariant q <= p <= |s| && p <= q + n && forall k | q <= k < p :: WordChar(s[k])
      {
        assert s[p] == s[q..][p - q];
        p := p + 1;
      }
      assert p < |s| ==> s[p] == s[q..][p - q];
      assert p == q + n;
    }

    /** gettoken: the kind of the next token, NUL at the end, and the span of a word. */
    method GetToken() returns (ret: char, q: nat, eq: nat)
      requires Valid()
      modifies this
      ensures Valid() && old(p) <= p
      ensures old(Rest()) == [] ==> ret == '\0' && Rest() == []
      ensures old(Rest()) != [] ==>
                && old(p) < p && Rest() == old(Rest())[1..]
                && (old(Rest())[0].Word? ==> ret == 'a' && WordAt(s, (q, eq)) && old(Rest())[0].w == Slice(s, (q, eq)))
                && (old(Rest())[0].Sym? ==> ret == old(Rest())[0].c && ret != 'a' && ret != '\0')
    {
      hide Lex, WordLen, WordAt, Slice;
      SkipWhite();
      q := p;
      Ahead(s, p);
      ghost var f := if p < |s| then First(s[p..]).1 else 0;
      if p == |s| {
        ret := '\0';
      } else if s[p] == '|' || s[p] == '(' || s[p] == ')' || s[p] == ';' || s[p] == '&' || s[p] == '<' {
        ret := s[p];
        p := p + 1;
      } else if s[p] == '>' {
        ret := s[p];
        p := p + 1;
        if p < |s| && s[p] == '>' {
          ret := '+';
          p := p + 1;
        }
      } else {
        ret := 'a';
        ScanWord();
      }
      eq := p;
      assert p == q + f;
      SkipWhite();
    }

    /** peek. */
    method Peek(toks: string) returns (r: bool)
      requires Valid()
      modifies this
      ensures Valid() && old(p) <= p && Rest() == old(Rest()) && (p == |s| || !White(s[p]))
      ensures r <==> p < |s| && s[p] in toks
    {
      SkipWhite();
      r := p < |s| && s[p] in toks;
    }

    /** parseredirs: the redirections ahead, in order. */
    method ParseRedirs() returns (ok: bool, rs: seq<(Span, Mode)>)
      requires Valid()
      modifies this
      ensures Valid() && old(p) <= p && ok == Redirs(old(Rest())).Ok?
      ensures ok ==> Files(s, rs) == Redirs(old(Rest())).v && Rest() == Redirs(old(Rest())).rest && SpansOk(s, rs)
    {
      hide Lex;
      rs := [];
      ghost var ts0 := Rest();
      assert Files(s, rs) == [];
      assert Redirs(ts0).Ok? ==> [] + Redirs(ts0).v == Redirs(ts0).v;
      while true
        invariant Valid() && old(p) <= p && SpansOk(s, rs) && Sofar(Redirs(ts0), Files(s, rs), Redirs(Rest()))
        decreases |s| - p
      {
        var more := Peek("<>");
        HeadAhead(s, p);
        if !more {
          return true, rs;
        }
        ghost var ts := Rest();
        var tok, q0, eq0 := GetToken();
        assert Rest() == ts[1..];
        var kind, q, eq := GetToken();
        if kind != 'a' {
          return false, rs;
        }
        assert ts[1].Word? && Rest() == ts[2..];
        ghost var rs0 := rs;
        rs := rs + [((q, eq), ModeOf(tok))];
        FilesMore(s, rs0, (q, eq), ModeOf(tok), ts0, ts);
      }
    }

    /** parseblock: a line in parentheses, and redirections. */
    method ParseBlockAt() returns (ok: bool, c: Cmd<Span>)
      requires Valid() && HeadIs(Rest(), '(')
      modifies this
      ensures Valid() && old(p) <= p && Agrees(s, ParseExec(old(Rest())), ok, c, Rest())
      decreases |s| - p, 0
    {
      hide Lex, White, ParseLine, Redirs, Wrap, Text, AllWords, WordAt;
      hide Syntax.LineToks, Syntax.LineTree, Syntax.LineWritten;
      var rs;
      var tok, q, eq := GetToken();
      ok, c := ParseLineAt();
      if !ok {
        return;
      }
      var close := Peek(")");
      HeadAhead(s, p);
      if !close {
        return false, c;
      }
      tok, q, eq := GetToken();
      ok, rs := ParseRedirs();
      if ok {
        WrapText(s, c, rs);
        c := Wrap(c, rs);
      }
    }

    /** parseexec. */
    method ParseExecAt() returns (ok: bool, c: Cmd<Span>)
      requires Valid()
      modifies this
      ensures Valid() && old(p) <= p && Agrees(s, ParseExec(old(Rest())), ok, c, Rest())
      ensures ok ==> exists x :: Syntax.ExecWritten(x) && old(Rest()) == Syntax.ExecToks(x) + Rest()
                                 && Text(s, c) == Syntax.ExecTree(x)
      decreases |s| - p, 1
    {
      hide Lex, White, Args, Redirs, Wrap, Text, AllWords, WordAt;
      hide Syntax.ExecToks, Syntax.ExecTree, Syntax.ExecWritten;
      c := Exec([]);
      var rs;
      var open := Peek("(");
      HeadAhead(s, p);
      if open {
        ok, c := ParseBlockAt();
      } else {
        ok, rs := ParseRedirs();
        if ok {
          ok, c := ParseArgs(rs);
        }
      }
      if ok {
        ghost var e := Syntax.ExecIsWritten(old(Rest()));
      }
    }

    /** parseexec's loop over the words; the exec node is filled while redirections already wrap it. */
    method ParseArgs(first: seq<(Span, Mode)>) returns (ok: bool, c: Cmd<Span>)
      requires Valid() && SpansOk(s, first)
      modifies this
      ensures Valid() && old(p) <= p && Agrees(s, Args([], Files(s, first), old(Rest())), ok, c, Rest())
    {
      hide Args, Redirs, Lex, Wrap, Slice;
      var argv: seq<Span>, rs := [], first;
      ghost var whole := Args([], Files(s, first), Rest());
      assert Slices(s, argv) == [];
      c := Exec([]);
      while true
        invariant Valid() && old(p) <= p && SpansOk(s, rs) && |argv| < MAXARGS && WordsOk(s, argv)
        invariant Args(Slices(s, argv), Files(s, rs), Rest()) == whole
        decreases |s| - p
      {
        var stop := Peek("|)&;");
        HeadAhead(s, p);
        ghost var ts := Rest();
        ArgsRule(Slices(s, argv), Files(s, rs), ts);
        if stop {
          break;
        }
        var tok, q, eq := GetToken();
        if tok == '\0' {
          break;
        }
        if tok != 'a' {
          return false, c;
        }
        ghost var argv0, rs0 := argv, rs;
        argv := argv + [(q, eq)];
        if |argv| >= MAXARGS {
          return false, c;
        }
        var ok1, more := ParseRedirs();
        if !ok1 {
          return false, c;
        }
        rs := rs + more;
        ArgsMore(s, argv0, rs0, (q, eq), more);
      }
      ExecText(s, argv);
      WrapText(s, Exec(argv), rs);
      return true, Wrap(Exec(argv), rs);
    }

    /** parsepipe. */
    method ParsePipeAt() returns (ok: bool, c: Cmd<Span>)
      requires Valid()
      modifies this
      ensures Valid() && old(p) <= p && Agrees(s, ParsePipe(old(Rest())), ok, c, Rest())
      ensures ok ==> exists x :: Syntax.PipeWritten(x) && old(Rest()) == Syntax.PipeToks(x) + Rest()
                                 && Text(s, c) == Syntax.PipeTree(x)
      decreases |s| - p, 2
    {
      hide Lex, White, Syntax.PipeToks, Syntax.PipeTree, Syntax.PipeWritten;
      ok, c := ParseExecAt();
      if !ok {
        return;
      }
      var bar := Peek("|");
      HeadAhead(s, p);
      if bar {
        var tok, q, eq := GetToken();
        var d;
        ok, d := ParsePipeAt();
        c := Pipe(c, d);
      }
      if ok {
        ghost var w := Syntax.PipeIsWritten(old(Rest()));
      }
    }

    /** parseline's loop over the "&"s. */
    method ParseBacks(c0: Cmd<Span>) returns (c: Cmd<Span>)
      requires Valid() && AllWords(s, c0)
      modifies this
      ensures Valid() && old(p) <= p && AllWords(s, c) && (Text(s, c), Rest()) == Backs(Text(s, c0), old(Rest()))
    {
      hide Lex, White;
      c := c0;
      ghost var t0, ts0 := Text(s, c), Rest();
      while true
        invariant Valid() && old(p) <= p && AllWords(s, c) && Backs(Text(s, c), Rest()) == Backs(t0, ts0)
        decreases |s| - p
      {
        var back := Peek("&");
        HeadAhead(s, p);
        if !back {
          break;
        }
        var tok, q, eq := GetToken();
        c := Back(c);
      }
    }

    /** parseline. */
    method ParseLineAt() returns (ok: bool, c: Cmd<Span>)
      requires Valid()
      modifies this
      ensures Valid() && old(p) <= p && Agrees(s, ParseLine(old(Rest())), ok, c, Rest())
      ensures ok ==> exists x :: Syntax.LineWritten(x) && old(Rest()) == Syntax.LineToks(x) + Rest()
                                 && Text(s, c) == Syntax.LineTree(x)
      decreases |s| - p, 3
    {
      hide Lex, White, ParsePipe, Backs, Syntax.LineToks, Syntax.LineTree, Syntax.LineWritten;
      hide Syntax.PipeToks, Syntax.PipeTree, Syntax.PipeWritten;
      ok, c := ParsePipeAt();
      if !ok {
        return;
      }
      c := ParseBacks(c);
      var semi := Peek(";");
      HeadAhead(s, p);
      if semi {
        var tok, q, eq := GetToken();
        var d;
        ok, d := ParseLineAt();
        c := List(c, d);
      }
      if ok {
        ghost var l := Syntax.LineIsWritten(old(Rest()));
      }
    }

    /** parsecmd up to nulterminate. */
    method ParseCmd() returns (ok: bool, c: Cmd<Span>)
      requires Valid() && p == 0
      modifies this
      ensures ok == Parse(s).Ok? && (ok ==> Text(s, c) == Parse(s).v && AllWords(s, c))
      ensures ok <==> exists l :: Syntax.LineWritten(l) && Lex(s) == Syntax.LineToks(l)
      ensures ok ==>
                exists l :: Syntax.LineWritten(l) && Lex(s) == Syntax.LineToks(l) && Text(s, c) == Syntax.LineTree(l)
    {
      assert s[0..] == s;
      ok, c := ParseLineAt();
      if ok {
        var r := Peek("");
        HeadAhead(s, p);
        ok := p == |s|;
      }
      Syntax.AcceptsExactly(s, Text(s, c));
    }
  }

  ghost predicate SpansOk(s: string, rs: seq<(Span, Mode)>) { forall k | 0 <= k < |rs| :: WordAt(s, rs[k].0) }

  ghost predicate WordsOk(s: string, ws: seq<Span>) { forall k | 0 <= k < |ws| :: WordAt(s, ws[k]) }

  /** A method's result is that of the grammar. */
  ghost predicate Agrees(s: string, r: Res<Cmd<string>>, ok: bool, c: Cmd<Span>, rest: seq<Tok>) {
    ok == r.Ok? && (ok ==> Text(s, c) == r.v && rest == r.rest && AllWords(s, c))
  }

  /** The whole result is the redirections read so far and then those of the rest. */
  ghost predicate Sofar(whole: Res<seq<(string, Mode)>>, done: seq<(string, Mode)>, ahead: Res<seq<(string, Mode)>>) {
    whole == if ahead.Fail? then Fail else Ok(done + ahead.v, ahead.rest)
  }

  lemma {:induction false} FilesMore(s: string, rs: seq<(Span, Mode)>, w: Span, m: Mode, ts0: seq<Tok>, ts: seq<Tok>)
    requires HeadRedir(ts) && |ts| >= 2 && ts[1] == Word(Slice(s, w)) && m == ModeOf(ts[0].c)
    requires Sofar(Redirs(ts0), Files(s, rs), Redirs(ts))
    ensures Sofar(Redirs(ts0), Files(s, rs + [(w, m)]), Redirs(ts[2..]))
  {
    assert Files(s, rs + [(w, m)]) == Files(s, rs) + [(Slice(s, w), m)];
    if Redirs(ts[2..]).Ok? {
      assert Files(s, rs) + ([(Slice(s, w), m)] + Redirs(ts[2..]).v) == Files(s, rs + [(w, m)]) + Redirs(ts[2..]).v;
    }
  }

  lemma {:induction false} ArgsMore(s: string, argv: seq<Span>, rs: seq<(Span, Mode)>, w: Span, more: seq<(Span, Mode)>)
    ensures Slices(s, argv + [w]) == Slices(s, argv) + [Slice(s, w)]
    ensures Files(s, rs + more) == Files(s, rs) + Files(s, more)
  {
  }

  lemma {:induction false} ExecText(s: string, argv: seq<Span>)
    requires WordsOk(s, argv)
    ensures Text(s, Exec(argv)) == Exec(Slices(s, argv)) && AllWords(s, Exec(argv))
  {
  }

  // ---------- nulterminate ----------

  /** The positions nulterminate writes to. */
  function Ends(c: Cmd<Span>): (r: set<nat>) { set w | w in Spans(c) :: w.1 }

  /** buf is `was` with NULs at the given positions. */
  ghost predicate NulsAt(was: seq<char>, buf: seq<char>, ends: set<nat>) {
    |buf| == |was| && forall i: nat | i < |buf| :: buf[i] == if i in ends then '\0' else was[i]
  }

  lemma {:induction false} NulsBoth(was: seq<char>, mid: seq<char>, buf: seq<char>, a: set<nat>, b: set<nat>,
                                    ends: set<nat>)
    requires NulsAt(was, mid, a) && NulsAt(mid, buf, b) && forall i: nat :: i in ends <==> i in a || i in b
    ensures NulsAt(was, buf, ends)
  {
  }

  /** nulterminate. */
  method NulTerminate(buf: array<char>, c: Cmd<Span>)
    requires forall w | w in Spans(c) :: w.1 < buf.Length
    modifies buf
    ensures NulsAt(old(buf[..]), buf[..], Ends(c))
    decreases c
  {
    ghost var was := buf[..];
    match c {
      case Exec(argv) =>
        var i := 0;
        while i < |argv|
          invariant 0 <= i <= |argv| && NulsAt(was, buf[..], set k | 0 <= k < i :: argv[k].1)
        {
          assert argv[i] in Spans(c);
          buf[argv[i].1] := '\0';
          i := i + 1;
        }
        assert Ends(c) == set k | 0 <= k < |argv| :: argv[k].1;
      case Redir(d, file, _) =>
        assert file in Spans(c);
        NulTerminate(buf, d);
        ghost var mid := buf[..];
        buf[file.1] := '\0';
        NulsBoth(was, mid, buf[..], Ends(d), {file.1}, Ends(c));
      case Pipe(l, r) =>
        NulTerminate(buf, l);
        ghost var mid := buf[..];
        NulTerminate(buf, r);
        NulsBoth(was, mid, buf[..], Ends(l), Ends(r), Ends(c));
      case List(l, r) =>
        NulTerminate(buf, l);
        ghost var mid := buf[..];
        NulTerminate(buf, r);
        NulsBoth(was, mid, buf[..], Ends(l), Ends(r), Ends(c));
      case Back(d) =>
        NulTerminate(buf, d);
        assert Ends(c) == Ends(d);
    }
  }

  /** The C string that starts at q. */
  function CString(buf: seq<char>, q: nat): (r: string)
    decreases |buf| - q
  {
    if q >= |buf| || buf[q] == '\0' then "" else [buf[q]] + CString(buf, q + 1)
  }

  lemma {:induction false} CStringIs(buf: seq<char>, q: nat, e: nat)
    requires q <= e < |buf| && buf[e] == '\0' && forall i | q <= i < e :: buf[i] != '\0'
    ensures CString(buf, q) == buf[q..e]
    decreases e - q
  {
    if q < e {
      CStringIs(buf, q + 1, e);
    }
  }

  /** After nulterminate every word of the tree is a C string equal to its token: no word was written over. */
  lemma {:induction false} WordsTerminated(s: string, c: Cmd<Span>, buf: seq<char>, w: Span)
    requires '\0' !in s && AllWords(s, c) && NulsAt(s + ['\0'], buf, Ends(c)) && w in Spans(c)
    ensures CString(buf, w.0) == Slice(s, w)
  {
    var was := s + ['\0'];
    assert WordAt(s, w) && w.1 in Ends(c);
    forall i: nat | w.0 <= i < w.1 ensures buf[i] == s[i] {
      assert i !in Ends(c) by {
        forall v | v in Spans(c) ensures v.1 != i {
          assert WordAt(s, v);
        }
      }
    }
    CStringIs(buf, w.0, w.1);
    assert buf[w.0..w.1] == s[w.0..w.1];
  }

  /** parsecmd: the tree of the line in buf, whose words are then C strings in buf. */
  method ParseCommand(buf: array<char>) returns (ok: bool, c: Cmd<Span>)
    requires buf.Length > 0 && buf[buf.Length - 1] == '\0' && '\0' !in buf[..buf.Length - 1]
    modifies buf
    ensures var line := old(buf[..buf.Length - 1]);
            && ok == Parse(line).Ok?
            && (ok ==> Text(line, c) == Parse(line).v
                       && forall w | w in Spans(c) :: CString(buf[..], w.0) == Slice(line, w))
            && (ok <==> exists l :: Syntax.LineWritten(l) && Lex(line) == Syntax.LineToks(l))
            && (ok ==> exists l :: Syntax.LineWritten(l) && Lex(line) == Syntax.LineToks(l)
                                   && Text(line, c) == Syntax.LineTree(l))
            && (!ok ==> buf[..] == old(buf[..]))
  {
    ghost var was := buf[..];
    var line := buf[..buf.Length - 1];
    assert was == line + ['\0'];
    var parser := new Parser(line);
    ok, c := parser.ParseCmd();
    if ok {
      assert forall w | w in Spans(c) :: WordAt(line, w);
      NulTerminate(buf, c);
      forall w | w in Spans(c) ensures CString(buf[..], w.0) == Slice(line, w) {
        WordsTerminated(line, c, buf[..], w);
      }
    }
  }
}
