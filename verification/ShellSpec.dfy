/** The grammar of shell lines and the words a line holds (user/sh.c). */
module ShellSpec {

  predicate IsWhite(c: char) {
    c in " \t\r\n\U{0B}"
  }

  predicate IsSymbol(c: char) {
    c in "<|>&;()"
  }

  predicate IsWord(c: char) {
    !IsWhite(c) && !IsSymbol(c)
  }

  /** The characters q up to e of the line. */
  datatype Span = Span(q: nat, e: nat)

  // ---- tokens

  datatype Kind = Symbol(c: char) | RightRight | Word

  datatype Token = Token(kind: Kind, w: Span)

  predicate StartsWord(text: string, i: nat) {
    i < |text| && IsWord(text[i]) && (i == 0 || !IsWord(text[i - 1]))
  }

  /** A word of the line: word characters only, as many as there are. */
  ghost predicate WholeWord(text: string, w: Span) {
    && w.q < w.e <= |text| && StartsWord(text, w.q)
    && (forall i :: w.q <= i < w.e ==> IsWord(text[i]))
    && (w.e < |text| ==> !IsWord(text[w.e]))
  }

  /** The line has this token at its span. */
  ghost predicate TokenAt(text: string, t: Token) {
    && t.w.q < t.w.e <= |text|
    && match t.kind
       case Word => WholeWord(text, t.w)
       case Symbol(c) => t.w.e == t.w.q + 1 && text[t.w.q] == c && IsSymbol(c)
         && (c == '>' && t.w.e < |text| ==> text[t.w.e] != '>')
       case RightRight => t.w.e == t.w.q + 2 && text[t.w.q] == text[t.w.q + 1] == '>'
  }

  ghost predicate White(text: string, a: nat, b: nat) {
    a <= b <= |text| && forall i :: a <= i < b ==> IsWhite(text[i])
  }

  /** From s up to e the line consists of these tokens and whitespace. */
  ghost predicate Lexes(text: string, s: nat, e: nat, ts: seq<Token>)
    decreases |ts|
  {
    if ts == [] then White(text, s, e)
    else White(text, s, ts[0].w.q) && TokenAt(text, ts[0]) && Lexes(text, ts[0].w.e, e, ts[1..])
  }

  /** Not in the middle of a word. */
  predicate Boundary(text: string, s: nat) {
    s == 0 || s >= |text| || !IsWord(text[s - 1]) || !IsWord(text[s])
  }

  lemma {:induction false} TokenBoundary(text: string, t: Token)
    requires TokenAt(text, t)
    ensures Boundary(text, t.w.e) && !IsWhite(text[t.w.q])
  {
  }

  /** Where a token starts determines it. */
  lemma {:induction false} TokenUnique(text: string, t: Token, u: Token)
    requires TokenAt(text, t) && TokenAt(text, u) && t.w.q == u.w.q
    ensures t == u
  {
    if t.kind == Word && u.kind == Word {
      EndOf(text, t.w.q, t.w.e);
      EndOf(text, u.w.q, u.w.e);
    }
  }

  /** Past the whitespace, the first token of the rest of the line starts. */
  lemma {:induction false} LexesSkip(text: string, at: nat, s: nat, ts: seq<Token>)
    requires Lexes(text, at, |text|, ts) && White(text, at, s) && (s < |text| ==> !IsWhite(text[s]))
    ensures Lexes(text, s, |text|, ts) && (ts == [] <==> s == |text|) && (ts != [] ==> ts[0].w.q == s)
  {
    if ts != [] {
      TokenBoundary(text, ts[0]);
    }
  }

  /** Every line consists of tokens and whitespace. */
  lemma {:induction false} LexLine(text: string, at: nat) returns (ts: seq<Token>)
    requires at <= |text| && Boundary(text, at)
    ensures Lexes(text, at, |text|, ts)
    decreases |text| - at
  {
    if at == |text| {
      ts := [];
    } else if IsWhite(text[at]) {
      ts := LexLine(text, at + 1);
      LexesEarlier(text, at, ts);
    } else {
      var e := if IsWord(text[at]) then WordEnd(text, at)
               else if text[at] == '>' && at + 1 < |text| && text[at + 1] == '>' then at + 2 else at + 1;
      var k := if IsWord(text[at]) then Word else if e == at + 2 then RightRight else Symbol(text[at]);
      if IsWord(text[at]) {
        WordEndIs(text, at);
      }
      var t := Token(k, Span(at, e));
      TokenBoundary(text, t);
      var rest := LexLine(text, e);
      ts := [t] + rest;
      assert ts[1..] == rest;
    }
  }

  lemma {:induction false} LexesEarlier(text: string, at: nat, ts: seq<Token>)
    requires at < |text| && IsWhite(text[at]) && Lexes(text, at + 1, |text|, ts)
    ensures Lexes(text, at, |text|, ts)
  {
  }

  /** The end of the word characters from i on. */
  function WordEnd(text: string, i: nat): (e: nat)
    requires i <= |text|
    ensures i <= e <= |text|
    decreases |text| - i
  {
    if i < |text| && IsWord(text[i]) then WordEnd(text, i + 1) else i
  }

  lemma {:induction false} WordEndIs(text: string, i: nat)
    requires i <= |text|
    ensures (forall k :: i <= k < WordEnd(text, i) ==> IsWord(text[k]))
            && (WordEnd(text, i) < |text| ==> !IsWord(text[WordEnd(text, i)]))
    ensures i < |text| && IsWord(text[i]) ==> i < WordEnd(text, i)
    decreases |text| - i
  {
    if i < |text| && IsWord(text[i]) {
      WordEndIs(text, i + 1);
    }
  }

  // ---- trees and the grammar

  datatype Mode = Input | Output | Append

  datatype Cmd =
    | Exec(argv: seq<Span>)
    | Redir(cmd: Cmd, file: Span, mode: Mode)
    | Pipe(left: Cmd, right: Cmd)
    | List(left: Cmd, right: Cmd)
    | Back(cmd: Cmd)

  datatype Redirection = To(file: Span, mode: Mode)

  /** A command with redirections around it, the first innermost. */
  function Wrap(c: Cmd, rs: seq<Redirection>): (r: Cmd) {
    if rs == [] then c else Redir(Wrap(c, rs[..|rs| - 1]), rs[|rs| - 1].file, rs[|rs| - 1].mode)
  }

  predicate IsRedirection(k: Kind) {
    k == Symbol('<') || k == Symbol('>') || k == RightRight
  }

  function ModeOf(k: Kind): (m: Mode)
    requires IsRedirection(k)
  {
    if k == Symbol('<') then Input else if k == Symbol('>') then Output else Append
  }

  /** The tokens are words and redirections, each an operator and a file, giving these arguments and redirections. */
  ghost predicate Simple(argv: seq<Span>, rs: seq<Redirection>, ts: seq<Token>)
    decreases |ts|
  {
    if ts == [] then argv == [] && rs == []
    else if IsRedirection(ts[0].kind) then
      |ts| >= 2 && ts[1].kind == Word && rs != [] && rs[0] == To(ts[1].w, ModeOf(ts[0].kind))
        && Simple(argv, rs[1..], ts[2..])
    else ts[0].kind == Word && argv != [] && argv[0] == ts[0].w && Simple(argv[1..], rs, ts[1..])
  }

  /** exec: words, fewer than MAXARGS, and redirections; or a line in parentheses and redirections. */
  ghost predicate ExecOf(c: Cmd, ts: seq<Token>)
    decreases |ts|, 0
  {
    (exists argv, rs :: PlainOf(c, argv, rs, ts)) || (exists d, rs, k: nat :: BlockOf(c, d, rs, k, ts))
  }

  ghost predicate PlainOf(c: Cmd, argv: seq<Span>, rs: seq<Redirection>, ts: seq<Token>) {
    c == Wrap(Exec(argv), rs) && |argv| < MAXARGS && Simple(argv, rs, ts)
  }

  ghost predicate BlockOf(c: Cmd, d: Cmd, rs: seq<Redirection>, k: nat, ts: seq<Token>)
    decreases |ts|, 0, 0
  {
    && 0 < k < |ts| && ts[0].kind == Symbol('(') && ts[k].kind == Symbol(')')
    && c == Wrap(d, rs) && LineOf(d, ts[1..k]) && Simple([], rs, ts[k + 1..])
  }

  /** pipe: exec, or exec | pipe. */
  ghost predicate PipeOf(c: Cmd, ts: seq<Token>)
    decreases |ts|, 1
  {
    || ExecOf(c, ts)
    || (c.Pipe? && exists k: nat ::
          k < |ts| && ts[k].kind == Symbol('|') && ExecOf(c.left, ts[..k]) && PipeOf(c.right, ts[k + 1..]))
  }

  /** background: pipe, followed by any number of &. */
  ghost predicate GroundOf(c: Cmd, ts: seq<Token>)
    decreases |ts|, 2
  {
    || PipeOf(c, ts)
    || (c.Back? && ts != [] && ts[|ts| - 1].kind == Symbol('&') && GroundOf(c.cmd, ts[..|ts| - 1]))
  }

  /** line: background, or background ; line. */
  ghost predicate LineOf(c: Cmd, ts: seq<Token>)
    decreases |ts|, 3
  {
    || GroundOf(c, ts)
    || (c.List? && exists k: nat ::
          k < |ts| && ts[k].kind == Symbol(';') && GroundOf(c.left, ts[..k]) && LineOf(c.right, ts[k + 1..]))
  }

  const MAXARGS := 10

  // ---- the words of a line, of tokens, and of a tree

  /** The words that start from a up to b. */
  ghost function WordsFrom(text: string, a: nat, b: nat): (r: multiset<Span>)
    requires b <= |text|
    decreases b - a
  {
    if a >= b then multiset{}
    else WordsAt(text, a) + WordsFrom(text, a + 1, b)
  }

  /** The word that starts at a, if one does. */
  ghost function WordsAt(text: string, a: nat): (r: multiset<Span>) {
    if StartsWord(text, a) then multiset{Span(a, WordEnd(text, a))} else multiset{}
  }

  ghost function WordOf(t: Token): (r: multiset<Span>) {
    if t.kind == Word then multiset{t.w} else multiset{}
  }

  ghost function TokenWords(ts: seq<Token>): (r: multiset<Span>) {
    if ts == [] then multiset{} else WordOf(ts[0]) + TokenWords(ts[1..])
  }

  ghost function TreeWords(c: Cmd): (r: multiset<Span>) {
    match c
    case Exec(argv) => multiset(argv)
    case Redir(d, file, _) => TreeWords(d) + multiset{file}
    case Pipe(l, r) => TreeWords(l) + TreeWords(r)
    case List(l, r) => TreeWords(l) + TreeWords(r)
    case Back(d) => TreeWords(d)
  }

  lemma {:induction false} WordsSplit(text: string, a: nat, b: nat, c: nat)
    requires a <= b <= c <= |text|
    ensures WordsFrom(text, a, c) == WordsFrom(text, a, b) + WordsFrom(text, b, c)
    decreases b - a
  {
    hide WordsAt;
    if a < b {
      WordsSplit(text, a + 1, b, c);
      JoinedOtherwise(WordsAt(text, a), WordsFrom(text, a + 1, b), WordsFrom(text, b, c));
    } else {
      JoinedToNone(WordsFrom(text, b, c));
    }
  }

  lemma {:induction false} JoinedOtherwise(x: multiset<Span>, y: multiset<Span>, z: multiset<Span>)
    ensures x + (y + z) == (x + y) + z
  {
  }

  lemma {:induction false} JoinedToNone(x: multiset<Span>)
    ensures multiset{} + x == x
  {
  }

  lemma {:induction false} WordsNone(text: string, a: nat, b: nat)
    requires b <= |text| && forall i: nat :: a <= i < b ==> !StartsWord(text, i)
    ensures WordsFrom(text, a, b) == multiset{}
    decreases b - a
  {
    if a < b {
      WordsNone(text, a + 1, b);
    }
  }

  lemma {:induction false} EndOf(text: string, i: nat, e: nat)
    requires i <= e <= |text| && (forall k :: i <= k < e ==> IsWord(text[k])) && (e < |text| ==> !IsWord(text[e]))
    ensures WordEnd(text, i) == e
    decreases e - i
  {
    if i < e {
      EndOf(text, i + 1, e);
    }
  }

  lemma {:induction false} TokenIs(text: string, t: Token)
    requires TokenAt(text, t)
    ensures WordsFrom(text, t.w.q, t.w.e) == WordOf(t)
  {
    if t.kind == Word {
      EndOf(text, t.w.q, t.w.e);
      WordsNone(text, t.w.q + 1, t.w.e);
    } else {
      WordsNone(text, t.w.q, t.w.e);
    }
  }

  /** The tokens of a line have its words, each once. */
  lemma {:induction false} LexedWords(text: string, s: nat, ts: seq<Token>)
    requires Lexes(text, s, |text|, ts)
    ensures s <= |text| && TokenWords(ts) == WordsFrom(text, s, |text|)
    decreases |ts|
  {
    if ts == [] {
      WordsNone(text, s, |text|);
    } else {
      var t := ts[0];
      LexedWords(text, t.w.e, ts[1..]);
      TokenIs(text, t);
      WordsNone(text, s, t.w.q);
      WordsSplit(text, s, t.w.q, |text|);
      WordsSplit(text, t.w.q, t.w.e, |text|);
    }
  }

  lemma {:induction false} TokensAreWords(text: string, s: nat, ts: seq<Token>, w: Span)
    requires Lexes(text, s, |text|, ts) && w in TokenWords(ts)
    ensures WholeWord(text, w)
    decreases |ts|
  {
    if w in TokenWords(ts[1..]) {
      TokensAreWords(text, ts[0].w.e, ts[1..], w);
    }
  }

  lemma {:induction false} TokenWordsSplit(a: seq<Token>, b: seq<Token>)
    ensures TokenWords(a + b) == TokenWords(a) + TokenWords(b)
    decreases |a|
  {
    if a == [] {
      assert a + b == b;
    } else {
      assert (a + b)[1..] == a[1..] + b && (a + b)[0] == a[0];
      TokenWordsSplit(a[1..], b);
    }
  }

  ghost function Files(rs: seq<Redirection>): (r: multiset<Span>) {
    if rs == [] then multiset{} else multiset{rs[0].file} + Files(rs[1..])
  }

  lemma {:induction false} FilesLast(rs: seq<Redirection>)
    requires rs != []
    ensures Files(rs) == Files(rs[..|rs| - 1]) + multiset{rs[|rs| - 1].file}
    decreases |rs|
  {
    var n := |rs| - 1;
    var init, tail := rs[..n], rs[1..];
    if n == 0 {
      assert init == [] && tail == [];
    } else {
      var mid := tail[..n - 1];
      FilesLast(tail);
      assert init[1..] == mid && init[0] == rs[0] && tail[|tail| - 1] == rs[n];
      JoinedOtherwise(multiset{rs[0].file}, Files(mid), multiset{rs[n].file});
    }
  }

  lemma {:induction false} WrapWords(c: Cmd, rs: seq<Redirection>)
    ensures TreeWords(Wrap(c, rs)) == TreeWords(c) + Files(rs)
    decreases |rs|
  {
    if rs != [] {
      WrapWords(c, rs[..|rs| - 1]);
      FilesLast(rs);
    }
  }

  lemma {:induction false} FileStep(argv: seq<Span>, rs: seq<Redirection>, ts: seq<Token>)
    requires |ts| >= 2 && ts[0].kind != Word && ts[1].kind == Word && rs != [] && rs[0].file == ts[1].w
    requires multiset(argv) + Files(rs[1..]) == TokenWords(ts[2..])
    ensures multiset(argv) + Files(rs) == TokenWords(ts)
  {
    assert ts[1..][1..] == ts[2..] && ts[1..][0] == ts[1];
    assert TokenWords(ts) == TokenWords(ts[1..]);
    var a, b, w := multiset(argv), Files(rs[1..]), multiset{ts[1].w};
    assert a + (w + b) == w + (a + b);
  }

  lemma {:induction false} ArgStep(argv: seq<Span>, rs: seq<Redirection>, ts: seq<Token>)
    requires ts != [] && ts[0].kind == Word && argv != [] && argv[0] == ts[0].w
    requires multiset(argv[1..]) + Files(rs) == TokenWords(ts[1..])
    ensures multiset(argv) + Files(rs) == TokenWords(ts)
  {
    hide Files;
    assert argv == [argv[0]] + argv[1..];
    var a, b, w := multiset(argv[1..]), Files(rs), multiset{ts[0].w};
    assert (w + a) + b == w + (a + b);
  }

  lemma {:induction false} SimpleWords(argv: seq<Span>, rs: seq<Redirection>, ts: seq<Token>)
    requires Simple(argv, rs, ts)
    ensures multiset(argv) + Files(rs) == TokenWords(ts)
    decreases |ts|
  {
    if ts == [] {
      assert multiset(argv) == multiset{} && Files(rs) == multiset{} && TokenWords(ts) == multiset{};
    } else if IsRedirection(ts[0].kind) {
      SimpleWords(argv, rs[1..], ts[2..]);
      FileStep(argv, rs, ts);
    } else {
      SimpleWords(argv[1..], rs, ts[1..]);
      ArgStep(argv, rs, ts);
    }
  }

  lemma {:induction false} TokenWordsAround(ts: seq<Token>, k: nat)
    requires k < |ts| && ts[k].kind != Word
    ensures TokenWords(ts) == TokenWords(ts[..k]) + TokenWords(ts[k + 1..])
  {
    assert ts == ts[..k] + ts[k..];
    TokenWordsSplit(ts[..k], ts[k..]);
    assert ts[k..][1..] == ts[k + 1..] && ts[k..][0] == ts[k];
    assert TokenWords(ts[k..]) == TokenWords(ts[k + 1..]);
  }

  lemma {:induction false} ExecWords(c: Cmd, ts: seq<Token>)
    requires ExecOf(c, ts)
    ensures TreeWords(c) == TokenWords(ts)
    decreases |ts|, 0
  {
    hide BlockOf;
    if argv, rs :| PlainOf(c, argv, rs, ts) {
      hide TreeWords;
      WrapWords(Exec(argv), rs);
      SimpleWords(argv, rs, ts);
      ExecArgs(argv);
    } else {
      var d, rs, k: nat :| BlockOf(c, d, rs, k, ts);
      BlockWords(c, d, rs, ts, k);
    }
  }

  lemma {:induction false} ExecArgs(argv: seq<Span>)
    ensures TreeWords(Exec(argv)) == multiset(argv)
  {
  }

  lemma {:induction false} BlockWords(c: Cmd, d: Cmd, rs: seq<Redirection>, ts: seq<Token>, k: nat)
    requires BlockOf(c, d, rs, k, ts)
    ensures TreeWords(c) == TokenWords(ts)
    decreases |ts| - 1, 4
  {
    hide LineOf, Simple, TreeWords, Files, Wrap, TokenWords;
    LineWords(d, ts[1..k]);
    WrapWords(d, rs);
    SimpleWords([], rs, ts[k + 1..]);
    TokenWordsAround(ts, k);
    TokenWordsAround(ts[..k], 0);
    assert ts[..k][1..] == ts[1..k] && ts[..k][..0] == [];
    NoTokens();
    assert multiset([]) + Files(rs) == Files(rs);
  }

  lemma {:induction false} NoTokens()
    ensures TokenWords([]) == multiset{}
  {
  }

  lemma {:induction false} PipeWords(c: Cmd, ts: seq<Token>)
    requires PipeOf(c, ts)
    ensures TreeWords(c) == TokenWords(ts)
    decreases |ts|, 1
  {
    hide ExecOf;
    if ExecOf(c, ts) {
      ExecWords(c, ts);
    } else {
      var k: nat :| k < |ts| && ts[k].kind == Symbol('|') && ExecOf(c.left, ts[..k]) && PipeOf(c.right, ts[k + 1..]);
      ExecWords(c.left, ts[..k]);
      PipeWords(c.right, ts[k + 1..]);
      TokenWordsAround(ts, k);
    }
  }

  lemma {:induction false} GroundWords(c: Cmd, ts: seq<Token>)
    requires GroundOf(c, ts)
    ensures TreeWords(c) == TokenWords(ts)
    decreases |ts|, 2
  {
    hide PipeOf;
    if PipeOf(c, ts) {
      PipeWords(c, ts);
    } else {
      var n := |ts| - 1;
      GroundWords(c.cmd, ts[..n]);
      TokenWordsAround(ts, n);
      assert ts[n + 1..] == [];
    }
  }

  /** A tree for some tokens has exactly their words. */
  lemma {:induction false} LineWords(c: Cmd, ts: seq<Token>)
    requires LineOf(c, ts)
    ensures TreeWords(c) == TokenWords(ts)
    decreases |ts|, 3
  {
    hide GroundOf;
    if GroundOf(c, ts) {
      GroundWords(c, ts);
    } else {
      var k: nat :| k < |ts| && ts[k].kind == Symbol(';') && GroundOf(c.left, ts[..k]) && LineOf(c.right, ts[k + 1..]);
      GroundWords(c.left, ts[..k]);
      LineWords(c.right, ts[k + 1..]);
      TokenWordsAround(ts, k);
    }
  }
}
