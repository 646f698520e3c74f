/** The shell's parser, user/sh.c: a tree whose words are spans of the input line, made into strings in place. */
module Shell {
  import opened Blocks
  import opened ShellSpec
  import opened ShellGrammar

  // ---- tokens

  /** The whitespace skipping of gettoken and peek. */
  method SkipWhite(text: string, at: nat) returns (s: nat)
    requires at <= |text|
    ensures White(text, at, s) && (s < |text| ==> !IsWhite(text[s]))
  {
    s := at;
    while s < |text| && IsWhite(text[s])
      invariant White(text, at, s)
    {
      s := s + 1;
    }
  }

  /** The end of the word that starts at q. */
  method ScanWord(text: string, q: nat) returns (s: nat)
    requires StartsWord(text, q)
    ensures WholeWord(text, Span(q, s))
  {
    s := q;
    while s < |text| && !IsWhite(text[s]) && !IsSymbol(text[s])
      invariant q <= s <= |text| && (s == q ==> IsWord(text[q]))
      invariant forall i :: q <= i < s ==> IsWord(text[i])
      decreases |text| - s
    {
      s := s + 1;
    }
  }

  /** gettoken's switch, at a character that is not whitespace. */
  method Scan(text: string, q: nat) returns (k: Kind, s: nat)
    requires q < |text| && !IsWhite(text[q]) && (IsWord(text[q]) ==> StartsWord(text, q))
    ensures TokenAt(text, Token(k, Span(q, s)))
  {
    s := q;
    if IsSymbol(text[s]) {
      k := Symbol(text[s]);
      s := s + 1;
      if text[q] == '>' && s < |text| && text[s] == '>' {
        k := RightRight;
        s := s + 1;
      }
    } else {
      k := Word;
      s := ScanWord(text, q);
    }
  }

  /** gettoken: the first of the line's remaining tokens, and the place behind it. */
  method GetToken(text: string, at: nat, ghost ts: seq<Token>) returns (t: Option<Token>, next: nat)
    requires at <= |text| && Lexes(text, at, |text|, ts)
    ensures t == if ts == [] then None else Some(ts[0])
    ensures at <= next <= |text| && Lexes(text, next, |text|, if ts == [] then [] else ts[1..])
    ensures t.Some? ==> at < next
  {
    hide IsWhite, WholeWord;
    var q := SkipWhite(text, at);
    LexesSkip(text, at, q, ts);
    if q == |text| {
      return None, q;
    }
    FirstStarts(text, q, ts);
    var k, s := Scan(text, q);
    TokenUnique(text, Token(k, Span(q, s)), ts[0]);
    next := SkipWhite(text, s);
    LexesSkip(text, s, next, ts[1..]);
    t := Some(Token(k, Span(q, s)));
  }

  lemma {:induction false} FirstStarts(text: string, q: nat, ts: seq<Token>)
    requires ts != [] && TokenAt(text, ts[0]) && ts[0].w.q == q
    ensures q < |text| && !IsWhite(text[q]) && (IsWord(text[q]) ==> StartsWord(text, q))
  {
  }

  /** peek: whether the next of the remaining tokens starts with one of the symbols in toks. */
  method Peek(text: string, at: nat, toks: string, ghost ts: seq<Token>) returns (yes: bool, s: nat)
    requires at <= |text| && Lexes(text, at, |text|, ts) && forall c :: c in toks ==> IsSymbol(c)
    ensures at <= s <= |text| && Lexes(text, s, |text|, ts)
    ensures yes <==> ts != [] && FirstChar(ts[0]) in toks
  {
    s := SkipWhite(text, at);
    LexesSkip(text, at, s, ts);
    yes := s < |text| && text[s] in toks;
    if ts != [] {
      FirstCharIs(text, ts[0]);
    }
  }

  /** The character a token starts with; a letter for words. */
  function FirstChar(t: Token): (c: char) {
    match t.kind case Symbol(c) => c case RightRight => '>' case Word => 'a'
  }

  lemma {:induction false} FirstCharIs(text: string, t: Token)
    requires TokenAt(text, t)
    ensures if t.kind == Word then !IsSymbol(text[t.w.q]) else text[t.w.q] == FirstChar(t)
    ensures IsSymbol('a') == false
  {
  }

  // ---- the recursive descent

  /** What a parsing method returns is what the parser on tokens finds. */
  ghost predicate Agrees<T>(text: string, r: Option<T>, next: nat, found: Option<Found<T>>) {
    match found
    case None => r == None
    case Some(f) => r == Some(f.value) && next <= |text| && Lexes(text, next, |text|, f.rest)
  }

  lemma {:induction false} RedirsStep(done: seq<Redirection>, ts: seq<Token>)
    requires |ts| >= 2 && IsRedirection(ts[0].kind) && ts[1].kind == Word
    ensures After(done, Redirs(ts)) == After(done + [To(ts[1].w, ModeOf(ts[0].kind))], Redirs(ts[2..]))
  {
    hide Redirs;
    FirstFile(ts);
    var r := To(ts[1].w, ModeOf(ts[0].kind));
    if Redirs(ts[2..]).Some? {
      var f := Redirs(ts[2..]).value;
      assert done + ([r] + f.value) == (done + [r]) + f.value;
    }
  }

  /** Redirections found behind those already done. */
  function After(done: seq<Redirection>, r: Option<Found<seq<Redirection>>>): (q: Option<Found<seq<Redirection>>>) {
    match r case None => None case Some(f) => Some(Found(done + f.value, f.rest))
  }

  /** parseredirs: redirections, each an operator and a file name; None for a missing file. */
  method ParseRedirs(text: string, at: nat, ghost ts: seq<Token>) returns (r: Option<seq<Redirection>>, next: nat)
    requires at <= |text| && Lexes(text, at, |text|, ts)
    ensures at <= next <= |text| && Agrees(text, r, next, Redirs(ts))
  {
    hide Lexes;
    var rs: seq<Redirection> := [];
    ghost var left := ts;
    AfterNothing(ts);
    next := at;
    while true
      invariant at <= next <= |text| && Lexes(text, next, |text|, left) && After(rs, Redirs(left)) == Redirs(ts)
      decreases |text| - next
    {
      var yes, s := Peek(text, next, "<>", left);
      if !yes {
        assert left == [] || !IsRedirection(left[0].kind);
        NoRedirs(left);
        assert rs + [] == rs;
        return Some(rs), s;
      }
      var op, a := GetToken(text, s, left);
      var file, b := GetToken(text, a, left[1..]);
      next := b;
      if file == None || file.value.kind != Word {
        return None, b;
      }
      RedirsStep(rs, left);
      rs := rs + [To(file.value.w, ModeOf(op.value.kind))];
      assert left[1..][1..] == left[2..];
      left := left[2..];
    }
  }

  lemma {:induction false} AfterNothing(ts: seq<Token>)
    ensures After([], Redirs(ts)) == Redirs(ts)
  {
    if Redirs(ts).Some? {
      assert [] + Redirs(ts).value.value == Redirs(ts).value.value;
    }
  }

  lemma {:induction false} TailStep(argv: seq<Span>, rs: seq<Redirection>, ts: seq<Token>)
    requires ts != [] && ts[0].kind == Word && |argv| + 1 < MAXARGS
    ensures Prepend(argv, rs, Tail(ts, |argv|)) == Prepend(argv + [ts[0].w], rs, Words(ts[1..], |argv| + 1))
  {
    hide Words, Prepend;
    PrependTwice(argv, rs, [ts[0].w], [], Words(ts[1..], |argv| + 1));
    assert rs + [] == rs;
  }

  lemma {:induction false} WordsStep(argv: seq<Span>, rs: seq<Redirection>, ts: seq<Token>)
    requires Redirs(ts).Some?
    ensures Prepend(argv, rs, Words(ts, |argv|)) ==
              Prepend(argv, rs + Redirs(ts).value.value, Tail(Redirs(ts).value.rest, |argv|))
  {
    hide Redirs, Tail, Prepend;
    var f := Redirs(ts).value;
    PrependTwice(argv, rs, [], f.value, Tail(f.rest, |argv|));
    assert argv + [] == argv;
  }

  lemma {:induction false} TailEnds(argv: seq<Span>, rs: seq<Redirection>, ts: seq<Token>)
    ensures Stops(ts) ==> Prepend(argv, rs, Tail(ts, |argv|)) == Some(Found(Plain(argv, rs), ts))
    ensures !Stops(ts) && (ts[0].kind != Word || |argv| + 1 >= MAXARGS) ==> Prepend(argv, rs, Tail(ts, |argv|)) == None
  {
    hide Words;
    assert argv + [] == argv && rs + [] == rs;
  }

  lemma {:induction false} NoMoreRedirs(argv: seq<Span>, rs: seq<Redirection>, ts: seq<Token>)
    requires Redirs(ts) == None
    ensures Prepend(argv, rs, Words(ts, |argv|)) == None
  {
    hide Redirs, Tail;
  }

  /** The words and redirections of a simple command, in parseexec. */
  method ParseWords(text: string, at: nat, ghost ts: seq<Token>) returns (r: Option<Plain>, next: nat)
    requires at <= |text| && Lexes(text, at, |text|, ts)
    ensures at <= next <= |text| && Agrees(text, r, next, Words(ts, 0))
  {
    hide Lexes, Words, Tail, Redirs, Prepend;
    var argv: seq<Span> := [];
    PrependTwice([], [], [], [], Words(ts, 0));
    var rs;
    rs, next := ParseRedirs(text, at, ts);
    if rs == None {
      NoMoreRedirs([], [], ts);
      return None, next;
    }
    var redirs := rs.value;
    WordsStep([], [], ts);
    assert [] + redirs == redirs;
    ghost var left := Redirs(ts).value.rest;
    while true
      invariant at <= next <= |text| && Lexes(text, next, |text|, left) && |argv| < MAXARGS
      invariant Prepend(argv, redirs, Tail(left, |argv|)) == Words(ts, 0)
      decreases |text| - next
    {
      TailEnds(argv, redirs, left);
      var stop, s := Peek(text, next, "|)&;", left);
      if stop {
        return Some(Plain(argv, redirs)), s;
      }
      var tok, a := GetToken(text, s, left);
      if tok == None {
        return Some(Plain(argv, redirs)), a;
      }
      if tok.value.kind != Word {
        return None, a;
      }
      if |argv| + 1 >= MAXARGS {
        return None, a;
      }
      TailStep(argv, redirs, left);
      argv := argv + [tok.value.w];
      var more, b := ParseRedirs(text, a, left[1..]);
      if more == None {
        NoMoreRedirs(argv, redirs, left[1..]);
        return None, b;
      }
      WordsStep(argv, redirs, left[1..]);
      left := Redirs(left[1..]).value.rest;
      redirs, next := redirs + more.value, b;
    }
  }

  /** parseexec, with parseblock at an opening parenthesis. */
  method ParseExec(text: string, at: nat, ghost ts: seq<Token>) returns (r: Option<Cmd>, next: nat)
    requires at <= |text| && Lexes(text, at, |text|, ts)
    ensures at <= next <= |text| && Agrees(text, r, next, ExecAt(ts))
    decreases |text| - at, 0
  {
    hide Lexes, Words, Redirs, LineAt;
    var block, s := Peek(text, at, "(", ts);
    if !block {
      var plain, a := ParseWords(text, s, ts);
      if plain == None {
        return None, a;
      }
      return Some(Wrap(Exec(plain.value.argv), plain.value.rs)), a;
    }
    var _, a := GetToken(text, s, ts);
    var line, b := ParseLine(text, a, ts[1..]);
    if line == None {
      return None, b;
    }
    ghost var left := LineAt(ts[1..]).value.rest;
    var closed, c := Peek(text, b, ")", left);
    if !closed {
      return None, c;
    }
    var _, d := GetToken(text, c, left);
    var rs, e := ParseRedirs(text, d, left[1..]);
    if rs == None {
      return None, e;
    }
    r, next := Some(Wrap(line.value, rs.value)), e;
  }

  /** parsepipe. */
  method ParsePipe(text: string, at: nat, ghost ts: seq<Token>) returns (r: Option<Cmd>, next: nat)
    requires at <= |text| && Lexes(text, at, |text|, ts)
    ensures at <= next <= |text| && Agrees(text, r, next, PipeAt(ts))
    decreases |text| - at, 1
  {
    hide Lexes, ExecAt;
    r, next := ParseExec(text, at, ts);
    if r == None {
      return;
    }
    ghost var left := ExecAt(ts).value.rest;
    var yes, s := Peek(text, next, "|", left);
    next := s;
    if yes {
      var _, a := GetToken(text, s, left);
      var right, b := ParsePipe(text, a, left[1..]);
      if right == None {
        return None, b;
      }
      r, next := Some(Pipe(r.value, right.value)), b;
    }
  }

  /** parseline. */
  method ParseLine(text: string, at: nat, ghost ts: seq<Token>) returns (r: Option<Cmd>, next: nat)
    requires at <= |text| && Lexes(text, at, |text|, ts)
    ensures at <= next <= |text| && Agrees(text, r, next, LineAt(ts))
    decreases |text| - at, 2
  {
    hide Lexes, PipeAt;
    r, next := ParsePipe(text, at, ts);
    if r == None {
      return;
    }
    ghost var left := PipeAt(ts).value.rest;
    ghost var found := Amps(r.value, left);
    while true
      invariant at <= next <= |text| && r.Some? && Lexes(text, next, |text|, left) && Amps(r.value, left) == found
      decreases |text| - next
    {
      var amp, s := Peek(text, next, "&", left);
      next := s;
      if !amp {
        break;
      }
      var _, a := GetToken(text, s, left);
      r, next, left := Some(Back(r.value)), a, left[1..];
    }
    var semi, s := Peek(text, next, ";", left);
    next := s;
    if semi {
      var _, a := GetToken(text, s, left);
      var rest, b := ParseLine(text, a, left[1..]);
      if rest == None {
        return None, b;
      }
      r, next := Some(List(r.value, rest.value)), b;
    }
  }

  // ---- terminating the words in place

  ghost function EndsOf(ws: multiset<Span>): (r: set<nat>) {
    set w | w in ws :: w.e
  }

  /** b with a NUL at each place in ends. */
  ghost predicate NulAt(b: string, ends: set<nat>, r: string) {
    |r| == |b| && forall i: nat :: i < |b| ==> r[i] == if i in ends then '\0' else b[i]
  }

  lemma {:induction false} NulTwice(b: string, x: multiset<Span>, c: string, y: multiset<Span>, r: string)
    requires NulAt(b, EndsOf(x), c) && NulAt(c, EndsOf(y), r)
    ensures NulAt(b, EndsOf(x + y), r)
  {
    assert EndsOf(x + y) == EndsOf(x) + EndsOf(y);
  }

  /** nulterminate: a NUL behind every word of the tree, and no other change. */
  method NulTerminate(c: Cmd, buf: array<char>)
    requires forall w :: w in TreeWords(c) ==> w.e < buf.Length
    modifies buf
    ensures NulAt(old(buf[..]), EndsOf(TreeWords(c)), buf[..])
    decreases c
  {
    hide NulAt, EndsOf;
    ghost var b := buf[..];
    match c {
      case Exec(argv) =>
        NulNone(b);
        assert multiset(argv[..0]) == multiset{};
        var i := 0;
        while i < |argv|
          invariant i <= |argv| && NulAt(b, EndsOf(multiset(argv[..i])), buf[..])
        {
          assert argv[i] in multiset(argv);
          ghost var was := buf[..];
          buf[argv[i].e] := '\0';
          NulOne(was, argv[i], buf[..]);
          NulTwice(b, multiset(argv[..i]), was, multiset{argv[i]}, buf[..]);
          assert argv[..i + 1] == argv[..i] + [argv[i]];
          i := i + 1;
        }
        assert argv[..i] == argv;
      case Redir(d, file, mode) =>
        NulTerminate(d, buf);
        ghost var was := buf[..];
        buf[file.e] := '\0';
        NulOne(was, file, buf[..]);
        NulTwice(b, TreeWords(d), was, multiset{file}, buf[..]);
      case Pipe(l, r) =>
        NulTerminate(l, buf);
        ghost var was := buf[..];
        NulTerminate(r, buf);
        NulTwice(b, TreeWords(l), was, TreeWords(r), buf[..]);
      case List(l, r) =>
        NulTerminate(l, buf);
        ghost var was := buf[..];
        NulTerminate(r, buf);
        NulTwice(b, TreeWords(l), was, TreeWords(r), buf[..]);
      case Back(d) =>
        NulTerminate(d, buf);
    }
  }

  lemma {:induction false} NulNone(b: string)
    ensures NulAt(b, EndsOf(multiset{}), b)
  {
  }

  lemma {:induction false} NulOne(was: string, w: Span, r: string)
    requires w.e < |was| && r == was[w.e := '\0']
    ensures NulAt(was, EndsOf(multiset{w}), r)
  {
  }

  /** The string that starts at q: the characters before the first NUL. */
  function CString(b: string, q: nat): (r: string)
    decreases |b| - q
  {
    if q >= |b| || b[q] == '\0' then "" else [b[q]] + CString(b, q + 1)
  }

  lemma {:induction false} CStringIs(b: string, q: nat, e: nat)
    requires q <= e < |b| && b[e] == '\0' && forall i :: q <= i < e ==> b[i] != '\0'
    ensures CString(b, q) == b[q..e]
    decreases e - q
  {
    if q < e {
      CStringIs(b, q + 1, e);
    }
  }

  /** A NUL behind every word spoils no word, although the spans share the line. */
  lemma {:induction false} WordSurvives(text: string, b: string, r: string, ws: multiset<Span>, w: Span)
    requires |text| < |b| && b[..|text|] == text && '\0' !in text && b[|text|] == '\0' && NulAt(b, EndsOf(ws), r)
    requires w in ws && forall x :: x in ws ==> WholeWord(text, x)
    ensures w.q < w.e <= |text| && CString(r, w.q) == text[w.q..w.e]
  {
    WordInside(text, w);
    assert w.e in EndsOf(ws);
    forall i: nat | w.q <= i < w.e ensures i !in EndsOf(ws) && r[i] == text[i] && r[i] != '\0' {
      assert IsWord(text[i]);
      assert text[i] in text && b[..|text|][i] == b[i];
    }
    CStringIs(r, w.q, w.e);
    assert r[w.q..w.e] == text[w.q..w.e];
  }

  /** parsecmd on the line in the buffer. It succeeds exactly when the grammar has a tree for the line's tokens, and
      returns that tree; its words are all words of the line, each once, and each is a string in the buffer now. */
  method ParseCmd(buf: array<char>) returns (r: Option<Cmd>, ghost ts: seq<Token>, ghost text: string)
    requires '\0' in buf[..]
    modifies buf
    ensures |text| < buf.Length && old(buf[..])[..|text|] == text && '\0' !in text && old(buf[..])[|text|] == '\0'
    ensures Lexes(text, 0, |text|, ts)
    ensures r == None ==> buf[..] == old(buf[..]) && forall c :: !LineOf(c, ts)
    ensures r.Some? ==> LineOf(r.value, ts) && TreeWords(r.value) == WordsFrom(text, 0, |text|)
    ensures r.Some? ==> forall w :: w in TreeWords(r.value) ==>
              WholeWord(text, w) && CString(buf[..], w.q) == text[w.q..w.e]
    ensures r.Some? ==> NulAt(old(buf[..]), EndsOf(TreeWords(r.value)), buf[..])
  {
    hide LineOf, LineAt, Lexes, WholeWord, NulAt, EndsOf, TreeWords, WordsFrom, CString;
    ghost var b := buf[..];
    var n := 0;
    while buf[n] != '\0'
      invariant n < buf.Length && '\0' !in buf[..n] && buf[..] == b
      decreases buf.Length - n
    {
      NotYet(b, n);
      n := n + 1;
    }
    var line := buf[..n];
    text := line;
    ts := LexLine(line, 0);
    forall c ensures LineOf(c, ts) <==> LineAt(ts) == Some(Found(c, [])) {
      FoundIffDerived(c, ts);
    }
    r := None;
    var cmd, next := ParseLine(line, 0, ts);
    if cmd == None {
      return;
    }
    var s := SkipWhite(line, next);
    LexesSkip(line, next, s, LineAt(ts).value.rest);
    if s != n {
      return;
    }
    LexedWords(line, 0, ts);
    LineWords(cmd.value, ts);
    forall w | w in TreeWords(cmd.value) ensures WholeWord(line, w) && w.q < w.e <= n {
      TokensAreWords(line, 0, ts, w);
      WordInside(line, w);
    }
    NulTerminate(cmd.value, buf);
    r := cmd;
    forall w | w in TreeWords(cmd.value) ensures CString(buf[..], w.q) == line[w.q..w.e] {
      WordSurvives(line, b, buf[..], TreeWords(cmd.value), w);
    }
  }

  lemma {:induction false} WordInside(text: string, w: Span)
    requires WholeWord(text, w)
    ensures w.q < w.e <= |text|
  {
  }

  lemma {:induction false} NotYet(b: string, n: nat)
    requires n < |b| && b[n] != '\0' && '\0' in b && '\0' !in b[..n]
    ensures n + 1 < |b| && '\0' !in b[..n + 1]
  {
    assert b[..n + 1] == b[..n] + [b[n]];
    assert b == b[..n + 1] + b[n + 1..];
  }
}
