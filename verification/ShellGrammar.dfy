/** Recursive descent on tokens: it finds a tree exactly when the grammar has one, and then that one. */
module ShellGrammar {
  import opened Blocks
  import opened ShellSpec

  /** What a parser found, and the tokens behind it. */
  datatype Found<T> = Found(value: T, rest: seq<Token>)

  datatype Plain = Plain(argv: seq<Span>, rs: seq<Redirection>)

  /** A simple command ends here. */
  predicate Stops(ts: seq<Token>) {
    ts == [] || ts[0].kind == Symbol('|') || ts[0].kind == Symbol(')') || ts[0].kind == Symbol('&')
      || ts[0].kind == Symbol(';')
  }

  predicate Next(ts: seq<Token>, c: char) {
    ts != [] && ts[0].kind == Symbol(c)
  }

  function Redirs(ts: seq<Token>): (r: Option<Found<seq<Redirection>>>)
    ensures r.Some? ==> |r.value.rest| <= |ts|
  {
    if ts == [] || !IsRedirection(ts[0].kind) then Some(Found([], ts))
    else if |ts| < 2 || ts[1].kind != Word then None
    else match Redirs(ts[2..])
         case None => None
         case Some(f) => Some(Found([To(ts[1].w, ModeOf(ts[0].kind))] + f.value, f.rest))
  }

  /** What was found, behind some words and redirections. */
  function Prepend(argv: seq<Span>, rs: seq<Redirection>, r: Option<Found<Plain>>): (q: Option<Found<Plain>>) {
    match r
    case None => None
    case Some(f) => Some(Found(Plain(argv + f.value.argv, rs + f.value.rs), f.rest))
  }

  lemma {:induction false} PrependTwice(a: seq<Span>, r: seq<Redirection>, b: seq<Span>, q: seq<Redirection>,
                                        x: Option<Found<Plain>>)
    ensures Prepend(a, r, Prepend(b, q, x)) == Prepend(a + b, r + q, x)
    ensures Prepend([], [], x) == x
  {
    if x.Some? {
      var f := x.value;
      assert a + (b + f.value.argv) == (a + b) + f.value.argv && r + (q + f.value.rs) == (r + q) + f.value.rs;
      assert [] + f.value.argv == f.value.argv && [] + f.value.rs == f.value.rs;
    }
  }

  /** Redirections, then words with redirections after them; n words have come before. */
  function Words(ts: seq<Token>, n: nat): (r: Option<Found<Plain>>)
    ensures r.Some? ==> |r.value.rest| <= |ts|
    decreases |ts|, 1
  {
    match Redirs(ts)
    case None => None
    case Some(f) => Prepend([], f.value, Tail(f.rest, n))
  }

  /** The same when the redirections have been read. */
  function Tail(ts: seq<Token>, n: nat): (r: Option<Found<Plain>>)
    ensures r.Some? ==> |r.value.rest| <= |ts|
    decreases |ts|, 0
  {
    if Stops(ts) then Some(Found(Plain([], []), ts))
    else if ts[0].kind != Word || n + 1 >= MAXARGS then None
    else Prepend([ts[0].w], [], Words(ts[1..], n + 1))
  }

  function ExecAt(ts: seq<Token>): (r: Option<Found<Cmd>>)
    ensures r.Some? ==> |r.value.rest| <= |ts|
    decreases |ts|, 0
  {
    if Next(ts, '(') then
      match LineAt(ts[1..])
      case None => None
      case Some(f) =>
        if !Next(f.rest, ')') then None
        else match Redirs(f.rest[1..])
             case None => None
             case Some(g) => Some(Found(Wrap(f.value, g.value), g.rest))
    else
      match Words(ts, 0)
      case None => None
      case Some(f) => Some(Found(Wrap(Exec(f.value.argv), f.value.rs), f.rest))
  }

  function PipeAt(ts: seq<Token>): (r: Option<Found<Cmd>>)
    ensures r.Some? ==> |r.value.rest| <= |ts|
    decreases |ts|, 1
  {
    match ExecAt(ts)
    case None => None
    case Some(f) =>
      if !Next(f.rest, '|') then Some(f)
      else match PipeAt(f.rest[1..])
           case None => None
           case Some(g) => Some(Found(Pipe(f.value, g.value), g.rest))
  }

  function Amps(c: Cmd, ts: seq<Token>): (f: Found<Cmd>)
    ensures |f.rest| <= |ts|
    decreases |ts|
  {
    if Next(ts, '&') then Amps(Back(c), ts[1..]) else Found(c, ts)
  }

  function LineAt(ts: seq<Token>): (r: Option<Found<Cmd>>)
    ensures r.Some? ==> |r.value.rest| <= |ts|
    decreases |ts|, 2
  {
    match PipeAt(ts)
    case None => None
    case Some(f) =>
      var g := Amps(f.value, f.rest);
      if !Next(g.rest, ';') then Some(g)
      else match LineAt(g.rest[1..])
           case None => None
           case Some(h) => Some(Found(List(g.value, h.value), h.rest))
  }

  // ---- what is found is in the grammar

  /** The tokens in front of rest. */
  function Front(ts: seq<Token>, rest: seq<Token>): (r: seq<Token>)
    requires |rest| <= |ts|
  {
    ts[..|ts| - |rest|]
  }

  ghost predicate Behind(ts: seq<Token>, rest: seq<Token>) {
    |rest| <= |ts| && rest == ts[|ts| - |rest|..]
  }

  lemma {:induction false} FrontStep(ts: seq<Token>, rest: seq<Token>, k: nat)
    requires k <= |ts| && Behind(ts[k..], rest)
    ensures Behind(ts, rest) && Front(ts, rest) == ts[..k] + Front(ts[k..], rest)
  {
  }

  lemma {:induction false} FrontThen(ts: seq<Token>, mid: seq<Token>, rest: seq<Token>)
    requires Behind(ts, mid) && Behind(mid, rest)
    ensures Behind(ts, rest) && Front(ts, rest) == Front(ts, mid) + Front(mid, rest)
  {
  }

  lemma {:induction false} SimpleJoin(a: seq<Span>, r: seq<Redirection>, t: seq<Token>, b: seq<Span>,
                                      q: seq<Redirection>, u: seq<Token>)
    requires Simple(a, r, t) && Simple(b, q, u)
    ensures Simple(a + b, r + q, t + u)
    decreases |t|
  {
    if t == [] {
      assert a + b == b && r + q == q && t + u == u;
    } else if IsRedirection(t[0].kind) {
      SimpleJoin(a, r[1..], t[2..], b, q, u);
      var tu, rq := t + u, r + q;
      assert tu[0] == t[0] && tu[1] == t[1] && tu[2..] == t[2..] + u && rq[0] == r[0] && rq[1..] == r[1..] + q;
    } else {
      SimpleJoin(a[1..], r, t[1..], b, q, u);
      var tu, ab := t + u, a + b;
      assert tu[0] == t[0] && tu[1..] == t[1..] + u && ab[0] == a[0] && ab[1..] == a[1..] + b;
    }
  }

  lemma {:induction false} RedirsSound(ts: seq<Token>)
    requires Redirs(ts).Some?
    ensures var f := Redirs(ts).value;
            && Behind(ts, f.rest) && Simple([], f.value, Front(ts, f.rest))
               && (f.rest != [] ==> !IsRedirection(f.rest[0].kind))
    decreases |ts|
  {
    if ts == [] || !IsRedirection(ts[0].kind) {
      assert ts[..0] == [];
    } else {
      RedirsSound(ts[2..]);
      var f, g := Redirs(ts).value, Redirs(ts[2..]).value;
      FrontStep(ts, g.rest, 2);
      var front := Front(ts, g.rest);
      assert front[2..] == Front(ts[2..], g.rest) && f.value[1..] == g.value;
    }
  }

  ghost predicate FoundPlain(ts: seq<Token>, n: nat, f: Found<Plain>) {
    Behind(ts, f.rest) && Simple(f.value.argv, f.value.rs, Front(ts, f.rest)) && n + |f.value.argv| < MAXARGS
      && Stops(f.rest)
  }

  lemma {:induction false} WordsSound(ts: seq<Token>, n: nat)
    requires Words(ts, n).Some? && n < MAXARGS
    ensures FoundPlain(ts, n, Words(ts, n).value)
    decreases |ts|, 1
  {
    hide Simple, Behind, Front, Tail, Redirs;
    RedirsSound(ts);
    var f := Redirs(ts).value;
    TailSound(f.rest, n);
    var g := Tail(f.rest, n).value;
    FrontThen(ts, f.rest, g.rest);
    SimpleJoin([], f.value, Front(ts, f.rest), g.value.argv, g.value.rs, Front(f.rest, g.rest));
    assert [] + g.value.argv == g.value.argv;
  }

  lemma {:induction false} TailSound(ts: seq<Token>, n: nat)
    requires Tail(ts, n).Some? && n < MAXARGS
    ensures FoundPlain(ts, n, Tail(ts, n).value)
    decreases |ts|, 0
  {
    hide Simple, Words;
    if Stops(ts) {
      assert Front(ts, ts) == [];
      NothingSimple();
    } else {
      WordsSound(ts[1..], n + 1);
      var g := Words(ts[1..], n + 1).value;
      WordStep(ts, g);
      assert [] + g.value.rs == g.value.rs;
    }
  }

  lemma {:induction false} NothingSimple()
    ensures Simple([], [], [])
  {
  }

  lemma {:induction false} WordStep(ts: seq<Token>, g: Found<Plain>)
    requires ts != [] && ts[0].kind == Word && Behind(ts[1..], g.rest)
             && Simple(g.value.argv, g.value.rs, Front(ts[1..], g.rest))
    ensures Behind(ts, g.rest) && Simple([ts[0].w] + g.value.argv, g.value.rs, Front(ts, g.rest))
  {
    FrontStep(ts, g.rest, 1);
    var front := Front(ts, g.rest);
    assert front[1..] == Front(ts[1..], g.rest);
    assert ([ts[0].w] + g.value.argv)[1..] == g.value.argv;
  }

  lemma {:induction false} ExecSound(ts: seq<Token>)
    requires ExecAt(ts).Some?
    ensures var f := ExecAt(ts).value; Behind(ts, f.rest) && ExecOf(f.value, Front(ts, f.rest))
    decreases |ts|, 0
  {
    hide Simple, Behind, Front, LineOf, LineAt;
    if Next(ts, '(') {
      LineSound(ts[1..]);
      var f := LineAt(ts[1..]).value;
      RedirsSound(f.rest[1..]);
      BlockSound(ts, f, Redirs(f.rest[1..]).value);
    } else {
      WordsSound(ts, 0);
      var f := Words(ts, 0).value;
      assert FoundPlain(ts, 0, f);
      assert PlainOf(Wrap(Exec(f.value.argv), f.value.rs), f.value.argv, f.value.rs, Front(ts, f.rest));
    }
  }

  lemma {:induction false} BlockSound(ts: seq<Token>, f: Found<Cmd>, g: Found<seq<Redirection>>)
    requires Next(ts, '(') && Behind(ts[1..], f.rest) && LineOf(f.value, Front(ts[1..], f.rest)) && Next(f.rest, ')')
    requires Behind(f.rest[1..], g.rest) && Simple([], g.value, Front(f.rest[1..], g.rest))
    ensures Behind(ts, g.rest) && ExecOf(Wrap(f.value, g.value), Front(ts, g.rest))
  {
    hide Simple, LineOf;
    var all := Front(ts, g.rest);
    var k := |ts| - |f.rest|;
    FrontStep(ts, f.rest, 1);
    FrontStep(f.rest, g.rest, 1);
    FrontThen(ts, f.rest, g.rest);
    assert all[1..k] == Front(ts[1..], f.rest);
    assert all[k + 1..] == Front(f.rest[1..], g.rest) && all[k] == f.rest[0] && all[0] == ts[0];
    assert BlockOf(Wrap(f.value, g.value), f.value, g.value, k, all);
  }

  lemma {:induction false} PipeSound(ts: seq<Token>)
    requires PipeAt(ts).Some?
    ensures var f := PipeAt(ts).value; Behind(ts, f.rest) && PipeOf(f.value, Front(ts, f.rest))
    decreases |ts|, 1
  {
    hide Behind, Front, ExecOf, ExecAt;
    ExecSound(ts);
    var f := ExecAt(ts).value;
    if Next(f.rest, '|') {
      PipeSound(f.rest[1..]);
      var g := PipeAt(f.rest[1..]).value;
      PipeJoin(ts, f, g);
    }
  }

  lemma {:induction false} PipeJoin(ts: seq<Token>, f: Found<Cmd>, g: Found<Cmd>)
    requires Behind(ts, f.rest) && ExecOf(f.value, Front(ts, f.rest)) && Next(f.rest, '|')
    requires Behind(f.rest[1..], g.rest) && PipeOf(g.value, Front(f.rest[1..], g.rest))
    ensures Behind(ts, g.rest) && PipeOf(Pipe(f.value, g.value), Front(ts, g.rest))
  {
    hide ExecOf;
    FrontStep(f.rest, g.rest, 1);
    FrontThen(ts, f.rest, g.rest);
    var all := Front(ts, g.rest);
    var k := |ts| - |f.rest|;
    assert all[..k] == Front(ts, f.rest) && all[k] == f.rest[0] && all[k + 1..] == Front(f.rest[1..], g.rest);
  }

  lemma {:induction false} AmpsSound(ts: seq<Token>, c: Cmd, rest: seq<Token>)
    requires Behind(ts, rest) && GroundOf(c, Front(ts, rest))
    ensures var f := Amps(c, rest); Behind(ts, f.rest) && GroundOf(f.value, Front(ts, f.rest)) && !Next(f.rest, '&')
    decreases |rest|
  {
    hide PipeOf;
    if Next(rest, '&') {
      var k := |ts| - |rest|;
      var front := Front(ts, rest[1..]);
      assert front[..|front| - 1] == Front(ts, rest) && front[|front| - 1] == rest[0];
      AmpsSound(ts, Back(c), rest[1..]);
    }
  }

  lemma {:induction false} LineSound(ts: seq<Token>)
    requires LineAt(ts).Some?
    ensures var f := LineAt(ts).value; Behind(ts, f.rest) && LineOf(f.value, Front(ts, f.rest))
    decreases |ts|, 2
  {
    hide Behind, Front, PipeOf, GroundOf, PipeAt;
    PipeSound(ts);
    var f := PipeAt(ts).value;
    PipeIsGround(f.value, Front(ts, f.rest));
    AmpsSound(ts, f.value, f.rest);
    var g := Amps(f.value, f.rest);
    if Next(g.rest, ';') {
      LineSound(g.rest[1..]);
      LineJoin(ts, g, LineAt(g.rest[1..]).value);
    }
  }

  lemma {:induction false} PipeIsGround(c: Cmd, ts: seq<Token>)
    requires PipeOf(c, ts)
    ensures GroundOf(c, ts)
  {
    hide PipeOf;
  }

  lemma {:induction false} LineJoin(ts: seq<Token>, f: Found<Cmd>, g: Found<Cmd>)
    requires Behind(ts, f.rest) && GroundOf(f.value, Front(ts, f.rest)) && Next(f.rest, ';')
    requires Behind(f.rest[1..], g.rest) && LineOf(g.value, Front(f.rest[1..], g.rest))
    ensures Behind(ts, g.rest) && LineOf(List(f.value, g.value), Front(ts, g.rest))
  {
    hide GroundOf;
    FrontStep(f.rest, g.rest, 1);
    FrontThen(ts, f.rest, g.rest);
    var all := Front(ts, g.rest);
    var k := |ts| - |f.rest|;
    assert all[..k] == Front(ts, f.rest) && all[k] == f.rest[0];
    assert all[k + 1..] == Front(f.rest[1..], g.rest);
    ListIs(f.value, g.value, all, k);
  }

  lemma {:induction false} ListIs(a: Cmd, b: Cmd, ts: seq<Token>, k: nat)
    requires k < |ts| && GroundOf(a, ts[..k]) && ts[k].kind == Symbol(';') && LineOf(b, ts[k + 1..])
    ensures LineOf(List(a, b), ts)
  {
    hide GroundOf;
  }

  // ---- what is in the grammar is found

  lemma {:induction false} RedirsFind(rs: seq<Redirection>, pre: seq<Token>, rest: seq<Token>)
    requires Simple([], rs, pre) && (rest == [] || !IsRedirection(rest[0].kind))
    ensures Redirs(pre + rest) == Some(Found(rs, rest))
    decreases |pre|
  {
    var ts := pre + rest;
    if pre == [] {
      assert ts == rest;
    } else {
      RedirsFind(rs[1..], pre[2..], rest);
      assert ts[2..] == pre[2..] + rest && ts[0] == pre[0] && ts[1] == pre[1];
      assert rs == [rs[0]] + rs[1..];
    }
  }

  lemma {:induction false} FirstFile(ts: seq<Token>)
    requires |ts| >= 2 && IsRedirection(ts[0].kind) && ts[1].kind == Word
    ensures Redirs(ts) == (match Redirs(ts[2..])
                           case None => None
                           case Some(f) => Some(Found([To(ts[1].w, ModeOf(ts[0].kind))] + f.value, f.rest)))
  {
  }

  lemma {:induction false} NoRedirs(ts: seq<Token>)
    requires ts == [] || !IsRedirection(ts[0].kind)
    ensures Redirs(ts) == Some(Found([], ts))
  {
  }

  lemma {:induction false} WordsAfterFile(ts: seq<Token>, n: nat)
    requires |ts| >= 2 && IsRedirection(ts[0].kind) && ts[1].kind == Word
    ensures Words(ts, n) == Prepend([], [To(ts[1].w, ModeOf(ts[0].kind))], Words(ts[2..], n))
  {
    hide Redirs, Tail;
    FirstFile(ts);
    if Redirs(ts[2..]).Some? {
      var f := Redirs(ts[2..]).value;
      var none: seq<Span> := [];
      PrependTwice(none, [To(ts[1].w, ModeOf(ts[0].kind))], none, f.value, Tail(f.rest, n));
      assert none + none == none;
    }
  }

  lemma {:induction false} WordsAfterWord(ts: seq<Token>, n: nat)
    requires ts != [] && ts[0].kind == Word && n + 1 < MAXARGS
    ensures Words(ts, n) == Prepend([ts[0].w], [], Words(ts[1..], n + 1))
  {
    hide Redirs, Prepend;
    NoRedirs(ts);
    PrependTwice([], [], [], [], Tail(ts, n));
  }

  lemma {:induction false} WordsAtEnd(ts: seq<Token>, n: nat)
    requires Stops(ts)
    ensures Words(ts, n) == Some(Found(Plain([], []), ts))
  {
    hide Redirs;
    NoRedirs(ts);
    PrependTwice([], [], [], [], Tail(ts, n));
  }

  lemma {:induction false} WordsFind(argv: seq<Span>, rs: seq<Redirection>, pre: seq<Token>, rest: seq<Token>, n: nat)
    requires Simple(argv, rs, pre) && Stops(rest) && n + |argv| < MAXARGS
    ensures Words(pre + rest, n) == Some(Found(Plain(argv, rs), rest))
    decreases |pre|
  {
    hide Words, Redirs, Stops;
    var ts := pre + rest;
    if pre == [] {
      assert ts == rest;
      WordsAtEnd(ts, n);
    } else if IsRedirection(pre[0].kind) {
      WordsFind(argv, rs[1..], pre[2..], rest, n);
      assert ts[2..] == pre[2..] + rest && ts[0] == pre[0] && ts[1] == pre[1];
      FileFound(argv, rs, ts, rest, n);
    } else {
      WordsFind(argv[1..], rs, pre[1..], rest, n + 1);
      assert ts[1..] == pre[1..] + rest && ts[0] == pre[0];
      WordFound(argv, rs, ts, rest, n);
    }
  }

  lemma {:induction false} FileFound(argv: seq<Span>, rs: seq<Redirection>, ts: seq<Token>, rest: seq<Token>, n: nat)
    requires |ts| >= 2 && IsRedirection(ts[0].kind) && ts[1].kind == Word
    requires rs != [] && rs[0] == To(ts[1].w, ModeOf(ts[0].kind))
    requires Words(ts[2..], n) == Some(Found(Plain(argv, rs[1..]), rest))
    ensures Words(ts, n) == Some(Found(Plain(argv, rs), rest))
  {
    hide Words, Redirs, Stops;
    WordsAfterFile(ts, n);
    assert rs == [rs[0]] + rs[1..] && [] + argv == argv;
  }

  lemma {:induction false} WordFound(argv: seq<Span>, rs: seq<Redirection>, ts: seq<Token>, rest: seq<Token>, n: nat)
    requires ts != [] && ts[0].kind == Word && argv != [] && argv[0] == ts[0].w && n + |argv| < MAXARGS
    requires Words(ts[1..], n + 1) == Some(Found(Plain(argv[1..], rs), rest))
    ensures Words(ts, n) == Some(Found(Plain(argv, rs), rest))
  {
    hide Words, Redirs, Stops;
    WordsAfterWord(ts, n);
    assert argv == [argv[0]] + argv[1..] && [] + rs == rs;
  }

  lemma {:induction false} SimpleFirst(argv: seq<Span>, rs: seq<Redirection>, pre: seq<Token>, rest: seq<Token>)
    requires Simple(argv, rs, pre) && Stops(rest)
    ensures !Next(pre + rest, '(')
  {
    assert pre == [] ==> pre + rest == rest;
  }

  lemma {:induction false} ExecFind(c: Cmd, pre: seq<Token>, rest: seq<Token>)
    requires ExecOf(c, pre) && Stops(rest)
    ensures ExecAt(pre + rest) == Some(Found(c, rest))
    decreases |pre|, 0
  {
    hide Simple, LineOf, LineAt, BlockOf, Words;
    if argv, rs :| PlainOf(c, argv, rs, pre) {
      SimpleFirst(argv, rs, pre, rest);
      WordsFind(argv, rs, pre, rest, 0);
    } else {
      var d, rs, k: nat :| BlockOf(c, d, rs, k, pre);
      BlockFind(c, d, rs, k, pre, rest);
    }
  }

  lemma {:induction false} BlockFind(c: Cmd, d: Cmd, rs: seq<Redirection>, k: nat, pre: seq<Token>, rest: seq<Token>)
    requires BlockOf(c, d, rs, k, pre) && Stops(rest)
    ensures ExecAt(pre + rest) == Some(Found(c, rest))
    decreases |pre| - 1, 4
  {
    hide Simple, LineOf, LineAt, Words;
    var ts := pre + rest;
    var after := pre[k..] + rest;
    assert ts[1..] == pre[1..k] + after && after[1..] == pre[k + 1..] + rest && after[0] == pre[k] && ts[0] == pre[0];
    LineFind(d, pre[1..k], after);
    RedirsFind(rs, pre[k + 1..], rest);
  }

  lemma {:induction false} PipeFind(c: Cmd, pre: seq<Token>, rest: seq<Token>)
    requires PipeOf(c, pre) && Stops(rest) && !Next(rest, '|')
    ensures PipeAt(pre + rest) == Some(Found(c, rest))
    decreases |pre|, 1
  {
    hide ExecOf, ExecAt;
    if ExecOf(c, pre) {
      ExecFind(c, pre, rest);
    } else {
      var k: nat :| k < |pre| && pre[k].kind == Symbol('|') && ExecOf(c.left, pre[..k])
        && PipeOf(c.right, pre[k + 1..]);
      var after := pre[k..] + rest;
      assert pre + rest == pre[..k] + after && after[1..] == pre[k + 1..] + rest && after[0] == pre[k];
      ExecFind(c.left, pre[..k], after);
      PipeFind(c.right, pre[k + 1..], rest);
    }
  }

  /** With the & behind it, a background command is found in two steps. */
  lemma {:induction false} GroundFind(c: Cmd, pre: seq<Token>, rest: seq<Token>)
    requires GroundOf(c, pre) && Stops(rest) && !Next(rest, '|')
    ensures PipeAt(pre + rest).Some?
            && Amps(PipeAt(pre + rest).value.value, PipeAt(pre + rest).value.rest) == Amps(c, rest)
    decreases |pre|, 2
  {
    hide PipeOf, PipeAt;
    if PipeOf(c, pre) {
      PipeFind(c, pre, rest);
    } else {
      var n := |pre| - 1;
      var after := [pre[n]] + rest;
      assert pre + rest == pre[..n] + after && after[1..] == rest;
      GroundFind(c.cmd, pre[..n], after);
    }
  }

  lemma {:induction false} LineEnds(ts: seq<Token>, g: Found<Cmd>)
    requires PipeAt(ts).Some? && Amps(PipeAt(ts).value.value, PipeAt(ts).value.rest) == g && !Next(g.rest, ';')
    ensures LineAt(ts) == Some(g)
  {
    hide PipeAt, Amps;
  }

  lemma {:induction false} LineGoesOn(ts: seq<Token>, g: Found<Cmd>, h: Found<Cmd>)
    requires PipeAt(ts).Some? && Amps(PipeAt(ts).value.value, PipeAt(ts).value.rest) == g && Next(g.rest, ';')
    requires LineAt(g.rest[1..]) == Some(h)
    ensures LineAt(ts) == Some(Found(List(g.value, h.value), h.rest))
  {
    hide PipeAt, Amps;
  }

  lemma {:induction false} NoAmps(c: Cmd, ts: seq<Token>)
    requires !Next(ts, '&')
    ensures Amps(c, ts) == Found(c, ts)
  {
  }

  lemma {:induction false} LineFind(c: Cmd, pre: seq<Token>, rest: seq<Token>)
    requires LineOf(c, pre) && (rest == [] || Next(rest, ')'))
    ensures LineAt(pre + rest) == Some(Found(c, rest))
    decreases |pre|, 3
  {
    hide GroundOf, PipeAt, LineAt, Amps;
    if GroundOf(c, pre) {
      GroundFind(c, pre, rest);
      NoAmps(c, rest);
      LineEnds(pre + rest, Found(c, rest));
    } else {
      var k: nat :| k < |pre| && pre[k].kind == Symbol(';') && GroundOf(c.left, pre[..k])
        && LineOf(c.right, pre[k + 1..]);
      var after := pre[k..] + rest;
      assert pre + rest == pre[..k] + after && after[1..] == pre[k + 1..] + rest && after[0] == pre[k];
      GroundFind(c.left, pre[..k], after);
      NoAmps(c.left, after);
      LineFind(c.right, pre[k + 1..], rest);
      LineGoesOn(pre + rest, Found(c.left, after), Found(c.right, rest));
    }
  }

  /** The parser finds a tree for all of the tokens if and only if it is the tree of the grammar for them; so the
      grammar is not ambiguous. */
  lemma {:induction false} FoundIffDerived(c: Cmd, ts: seq<Token>)
    ensures LineAt(ts) == Some(Found(c, [])) <==> LineOf(c, ts)
  {
    hide LineAt, LineOf;
    if LineOf(c, ts) {
      LineFind(c, ts, []);
      assert ts + [] == ts;
    }
    if LineAt(ts) == Some(Found(c, [])) {
      LineSound(ts);
      assert Front(ts, []) == ts;
    }
  }
}
