/** What the redirections of a simple command do when runcmd of user/sh.c goes through its tree. */
module ShellRun {
  import opened Blocks
  import opened ShellSpec

  /** A file opened for a descriptor. */
  datatype Open = Inherited | File(name: Span, mode: Mode)

  /** The descriptor that redircmd is given for a mode. */
  function Fd(m: Mode): (fd: nat)
    ensures fd < 2
  {
    if m == Input then 0 else 1
  }

  /** runcmd at its REDIR nodes: each closes its descriptor and opens its file in its place, then the command below
      runs. */
  function Redirected(c: Cmd, fds: seq<Open>): (r: seq<Open>)
    requires |fds| == 2
    ensures |r| == 2
  {
    if c.Redir? then Redirected(c.cmd, fds[Fd(c.mode) := File(c.file, c.mode)]) else fds
  }

  /** The first redirection of a descriptor. */
  function FirstTo(rs: seq<Redirection>, fd: nat, otherwise: Open): (r: Open) {
    if rs == [] then otherwise
    else if Fd(rs[0].mode) == fd then File(rs[0].file, rs[0].mode)
    else FirstTo(rs[1..], fd, otherwise)
  }

  lemma {:induction false} FirstToMore(rs: seq<Redirection>, last: Redirection, fd: nat, otherwise: Open)
    ensures FirstTo(rs + [last], fd, otherwise) ==
            FirstTo(rs, fd, if Fd(last.mode) == fd then File(last.file, last.mode) else otherwise)
  {
    if rs != [] {
      assert (rs + [last])[1..] == rs[1..] + [last];
      FirstToMore(rs[1..], last, fd, otherwise);
    }
  }

  /** The tree has the last redirection on top, so that the first one is carried out last. */
  lemma {:induction false} WrappedOpens(argv: seq<Span>, rs: seq<Redirection>, fds: seq<Open>, fd: nat)
    requires |fds| == 2 && fd < 2
    ensures Redirected(Wrap(Exec(argv), rs), fds)[fd] == FirstTo(rs, fd, fds[fd])
  {
    if rs != [] {
      var n := |rs| - 1;
      FirstToMore(rs[..n], rs[n], fd, fds[fd]);
      assert rs == rs[..n] + [rs[n]];
      WrappedOpens(argv, rs[..n], fds[Fd(rs[n].mode) := File(rs[n].file, rs[n].mode)], fd);
    }
  }

  /** The first < of the tokens, or the first > or >>, with the word behind it. */
  function FirstToken(ts: seq<Token>, output: bool): (r: Option<(Token, Span)>) {
    if |ts| < 2 then None
    else if ts[0].kind == Symbol('<') && !output then Some((ts[0], ts[1].w))
    else if (ts[0].kind == Symbol('>') || ts[0].kind == RightRight) && output then Some((ts[0], ts[1].w))
    else FirstToken(ts[1..], output)
  }

  lemma {:induction false} FirstIsToken(argv: seq<Span>, rs: seq<Redirection>, ts: seq<Token>, otherwise: Open)
    requires Simple(argv, rs, ts)
    ensures FirstTo(rs, 0, otherwise) ==
            match FirstToken(ts, false) case None => otherwise case Some((_, w)) => File(w, Input)
    ensures FirstTo(rs, 1, otherwise) ==
            match FirstToken(ts, true)
            case None => otherwise
            case Some((t, w)) => File(w, if t.kind == RightRight then Append else Output)
    decreases |ts|
  {
    if ts != [] {
      if IsRedirection(ts[0].kind) {
        FirstIsToken(argv, rs[1..], ts[2..], otherwise);
        assert ts[1..][1..] == ts[2..];
        if |ts| > 2 {
          assert FirstToken(ts[1..], false) == FirstToken(ts[2..], false);
        }
      } else {
        FirstIsToken(argv[1..], rs, ts[1..], otherwise);
      }
    }
  }

  /** A simple command reads from the file behind its first < and writes to the one behind its first > or >>, which is
      truncated or appended to accordingly; later redirections of the same kind only open their files. Without one the
      command has what its shell has. */
  lemma {:induction false} FirstRedirectionWins(c: Cmd, argv: seq<Span>, rs: seq<Redirection>, ts: seq<Token>,
                                                fds: seq<Open>)
    requires PlainOf(c, argv, rs, ts) && |fds| == 2
    ensures Redirected(c, fds)[0] ==
            match FirstToken(ts, false) case None => fds[0] case Some((_, w)) => File(w, Input)
    ensures Redirected(c, fds)[1] ==
            match FirstToken(ts, true)
            case None => fds[1]
            case Some((t, w)) => File(w, if t.kind == RightRight then Append else Output)
  {
    WrappedOpens(argv, rs, fds, 0);
    WrappedOpens(argv, rs, fds, 1);
    FirstIsToken(argv, rs, ts, fds[0]);
    FirstIsToken(argv, rs, ts, fds[1]);
  }
}
