/** The path operations of kernel/fs.c, proved against PathSpec. */
module Paths {
  import opened Blocks
  import opened PathSpec

  /** dirlookup's scan. */
  method LookUp(t: Tree, dp: Id, name: string) returns (r: Option<Id>)
    requires IsDir(t, dp)
    ensures r == DirLookup(t, dp, name)
  {
    var es := t[dp].entries;
    var k := 0;
    while k < |es|
      invariant k <= |es| && Find(es, name, 0) == Find(es, name, k)
    {
      if es[k].inum != 0 && SameName(name, es[k].name) {
        return Some(Id(dp.dev, es[k].inum));
      }
      k := k + 1;
    }
    r := None;
  }

  /** dirent_name_by_inum's scan. */
  method NameByInum(t: Tree, dp: Id, inum: nat) returns (r: Option<string>)
    ensures r == if IsDir(t, dp) then FindInum(t[dp].entries, inum, 0) else None
  {
    if !IsDir(t, dp) {
      return None;
    }
    var es := t[dp].entries;
    var k := 0;
    while k < |es|
      invariant k <= |es| && FindInum(es, inum, 0) == FindInum(es, inum, k)
    {
      if es[k].inum == inum && !SameName(es[k].name, ".") && !SameName(es[k].name, "..") {
        return Some(es[k].name);
      }
      k := k + 1;
    }
    r := None;
  }

  // ---- parsing

  lemma {:induction false} SkipSlash(path: string, p: nat)
    requires p < |path| && path[p] == '/'
    ensures Elements(path[p..]) == Elements(path[p + 1..])
  {
    assert path[p..][1..] == path[p + 1..];
  }

  lemma {:induction false} TakeElement(path: string, s: nat, p: nat)
    requires s < p <= |path| && '/' !in path[s..p] && (p < |path| ==> path[p] == '/')
    ensures Elements(path[s..]) == [Clip(path[s..p])] + Elements(path[p..])
  {
    assert path[s..] == path[s..p] + path[p..];
    SpanOf(path[s..p], path[p..]);
    assert path[s..][..p - s] == path[s..p] && path[s..][p - s..] == path[p..];
    assert path[s..][0] in path[s..p];
  }

  /** Past slashes there is an element exactly when the path has not ended. */
  lemma {:induction false} ElementHere(path: string, p: nat)
    requires p <= |path| && (p < |path| ==> path[p] != '/')
    ensures Elements(path[p..]) == [] <==> p == |path|
  {
  }

  /** skipelem: the first element of path[at..] and where the next one starts, or that there is none. */
  method SkipElem(path: string, at: nat) returns (found: bool, name: string, next: nat)
    requires at <= |path|
    ensures next <= |path| && found == (Elements(path[at..]) != [])
    ensures found ==> at < next && Elements(path[at..]) == [name] + Elements(path[next..])
    ensures found ==> (next == |path| <==> Elements(path[next..]) == [])
  {
    hide Elements, Clip;
    var p := at;
    name := "";
    while p < |path| && path[p] == '/'
      invariant at <= p <= |path| && Elements(path[at..]) == Elements(path[p..])
    {
      SkipSlash(path, p);
      p := p + 1;
    }
    ElementHere(path, p);
    if p == |path| {
      return false, name, p;
    }
    var s := p;
    while p < |path| && path[p] != '/'
      invariant s <= p <= |path| && '/' !in path[s..p]
    {
      assert path[s..p + 1] == path[s..p] + [path[p]];
      p := p + 1;
    }
    TakeElement(path, s, p);
    name := Clip(path[s..p]);
    while p < |path| && path[p] == '/'
      invariant s < p <= |path| && Elements(path[s..]) == [name] + Elements(path[p..])
    {
      SkipSlash(path, p);
      p := p + 1;
    }
    ElementHere(path, p);
    return true, name, p;
  }

  /** The body of namex's loop: across a mount in either direction, or to an entry. */
  method NextDir(t: Tree, ip: Id, name: string) returns (r: Option<Id>)
    requires IsDir(t, ip)
    ensures r == Step(t, ip, name)
  {
    var up := MountByTarget(ip);
    var mount := MountByName(ip, name);
    if SameName(name, "..") && up.Some? {
      r := Some(up.value.parent);
    } else if mount.Some? {
      r := Some(Id(mount.value.targetDev, ROOTINO));
    } else {
      r := LookUp(t, ip, name);
    }
  }

  /** namex: the inode a path names, or with wantParent the directory that would hold it and its last name. */
  method Namex(t: Tree, path: string, wantParent: bool, cwd: Id) returns (r: Option<Id>, name: string)
    ensures var start := Start(path, cwd);
            var names := Elements(path);
            if !wantParent then r == Namei(t, cwd, path)
            else if names == [] then r == None
            else && r == (match Resolve(t, start, names[..|names| - 1])
                          case None => None
                          case Some(dir) => if IsDir(t, dir) then Some(dir) else None)
                 && (r.Some? ==> name == names[|names| - 1])
  {
    hide Resolve, Elements, DirLookup;
    var ip := if path != "" && path[0] == '/' then ROOT else cwd;
    ghost var start := Start(path, cwd);
    ghost var names := Elements(path);
    ghost var done := 0;
    name := "";
    var at: nat := 0;
    assert path[0..] == path && names[0..] == names;
    ResolveNone(t, start, names[..0]);
    while true
      invariant at <= |path| && done <= |names| && Elements(path[at..]) == names[done..]
      invariant Resolve(t, start, names[..done]) == Some(ip) && (wantParent && done > 0 ==> done < |names|)
      decreases |path| - at
    {
      var found, elem, next := SkipElem(path, at);
      if !found {
        break;
      }
      name := elem;
      Descend(t, start, names, done, ip);
      assert names[done] == elem && names[done + 1..] == Elements(path[next..]);
      if !IsDir(t, ip) {
        Stuck(t, start, names, done, ip);
        return None, name;
      }
      if wantParent && next == |path| {
        return Some(ip), name;
      }
      var below := NextDir(t, ip, name);
      if below == None {
        Stuck(t, start, names, done, ip);
        return None, name;
      }
      ip, at, done := below.value, next, done + 1;
    }
    assert names[..done] == names;
    return if wantParent then None else Some(ip), name;
  }

  lemma {:induction false} ResolveNone(t: Tree, start: Id, names: seq<string>)
    requires names == []
    ensures Resolve(t, start, names) == Some(start)
  {
  }

  /** One more name resolved. */
  lemma {:induction false} Descend(t: Tree, start: Id, names: seq<string>, k: nat, ip: Id)
    requires k < |names| && Resolve(t, start, names[..k]) == Some(ip)
    ensures Resolve(t, start, names[..k + 1]) == Step(t, ip, names[k])
  {
    var more := names[..k + 1];
    ResolveSplit(t, start, more, k);
    assert more[..k] == names[..k] && more[k..] == [names[k]];
    assert [names[k]][1..] == [];
  }

  /** A name that does not resolve ends the walk. */
  lemma {:induction false} Stuck(t: Tree, start: Id, names: seq<string>, k: nat, ip: Id)
    requires k < |names| && Resolve(t, start, names[..k]) == Some(ip) && Step(t, ip, names[k]) == None
    ensures Resolve(t, start, names) == None
    ensures k < |names| - 1 ==> Resolve(t, start, names[..|names| - 1]) == None
    ensures k == |names| - 1 ==> Resolve(t, start, names[..|names| - 1]) == Some(ip)
  {
    ResolveSplit(t, start, names, k);
    if k < |names| - 1 {
      var most := names[..|names| - 1];
      ResolveSplit(t, start, most, k);
      assert most[..k] == names[..k];
    }
  }

  // ---- printing

  /** The names in the directory tree hold no NUL. */
  ghost predicate Stored(t: Tree) {
    forall dp, k :: dp in t && t[dp].Dir? && 0 <= k < |t[dp].entries| ==> NoNul(t[dp].entries[k].name)
  }

  predicate NoNul(s: string) {
    '\0' !in s
  }

  lemma {:induction false} FoundNoNul(es: seq<Entry>, inum: nat, k: nat)
    requires k <= |es| && FindInum(es, inum, k).Some? && forall j :: 0 <= j < |es| ==> NoNul(es[j].name)
    ensures NoNul(FindInum(es, inum, k).value)
    decreases |es| - k
  {
    if !(es[k].inum == inum && !SameName(es[k].name, ".") && !SameName(es[k].name, "..")) {
      FoundNoNul(es, inum, k + 1);
    }
  }

  /** The walks from ip are the walks from cur followed by tail. */
  ghost predicate Ends(t: Tree, ip: Id, cur: Id, tail: seq<string>) {
    forall names :: Leads(t, ip, names) <==> ViaTail(t, cur, tail, names)
  }

  ghost predicate ViaTail(t: Tree, cur: Id, tail: seq<string>, names: seq<string>) {
    |tail| <= |names| && names[|names| - |tail|..] == tail && Leads(t, cur, names[..|names| - |tail|])
  }

  lemma {:induction false} EndsStart(t: Tree, ip: Id)
    ensures Ends(t, ip, ip, [])
  {
    forall names ensures Leads(t, ip, names) <==> ViaTail(t, ip, [], names) {
      assert names[..|names|] == names && names[|names|..] == [];
    }
  }

  lemma {:induction false} TailStep(t: Tree, cur: Id, tail: seq<string>, names: seq<string>)
    requires cur != ROOT && IsDir(t, cur) && Above(t, cur).Some?
    ensures ViaTail(t, cur, tail, names) <==> ViaTail(t, Above(t, cur).value.0, [Above(t, cur).value.1] + tail, names)
  {
    var (up, name) := Above(t, cur).value;
    if |tail| + 1 <= |names| {
      var k := |names| - |tail|;
      assert names[..k][..k - 1] == names[..k - 1];
      assert names[k - 1..] == [names[k - 1]] + names[k..];
      if names[k - 1..] == [name] + tail {
        assert names[k - 1] == name && names[k..] == tail by {
          assert ([name] + tail)[0] == name && ([name] + tail)[1..] == tail;
        }
      }
    }
  }

  lemma {:induction false} EndsStep(t: Tree, ip: Id, cur: Id, tail: seq<string>)
    requires Ends(t, ip, cur, tail) && cur != ROOT && IsDir(t, cur) && Above(t, cur).Some?
    ensures Ends(t, ip, Above(t, cur).value.0, [Above(t, cur).value.1] + tail)
  {
    hide Above;
    forall names ensures Leads(t, ip, names) <==>
        ViaTail(t, Above(t, cur).value.0, [Above(t, cur).value.1] + tail, names) {
      TailStep(t, cur, tail, names);
    }
  }

  lemma {:induction false} JoinedSplit(a: seq<string>, b: seq<string>)
    ensures Joined(a + b) == Joined(a) + Joined(b)
    decreases |b|
  {
    if b == [] {
      assert a + b == a;
    } else {
      var n := |b| - 1;
      assert (a + b)[..|a + b| - 1] == a + b[..n];
      JoinedSplit(a, b[..n]);
    }
  }

  lemma {:induction false} JoinedFirst(name: string, tail: seq<string>)
    ensures Joined([name] + tail) == "/" + name + Joined(tail)
  {
    JoinedSplit([name], tail);
    assert Joined([name]) == Joined([name][..0]) + "/" + name;
  }

  /** Whatever leads to ip prints at least as long as what has been collected. */
  lemma {:induction false} TooLong(t: Tree, ip: Id, cur: Id, tail: seq<string>, names: seq<string>)
    requires Ends(t, ip, cur, tail) && Leads(t, ip, names)
    ensures |Joined(names)| >= |Joined(tail)|
  {
    assert ViaTail(t, cur, tail, names);
    JoinedSplit(names[..|names| - |tail|], tail);
    assert names == names[..|names| - |tail|] + tail;
  }

  /** What inodepath's loop knows: buf[pos..last] holds the names collected so far. */
  ghost predicate Collected(t: Tree, ip: Id, cur: Id, tail: seq<string>, text: string) {
    Ends(t, ip, cur, tail) && text == Joined(tail) && NoNul(text)
  }

  /** The directory above and the name there; None where inodepath gives up. */
  method UpOne(t: Tree, cur: Id) returns (r: Option<(Id, string)>)
    requires IsDir(t, cur) && Stored(t)
    ensures r == Above(t, cur)
    ensures r.Some? ==> NoNul(r.value.1) && r.value.1 != "" && (r.value.0 == ROOT || IsDir(t, r.value.0))
  {
    var mount := MountByTarget(cur);
    if mount.Some? {
      r := Some((mount.value.parent, mount.value.name));
    } else {
      var up := LookUp(t, cur, "..");
      if up == None {
        return None;
      }
      var name := NameByInum(t, up.value, cur.inum);
      if name == None {
        return None;
      }
      FoundNoNul(t[up.value].entries, cur.inum, 0);
      r := if name.value == "" then None else Some((up.value, name.value));
    }
  }

  /** The end of a round: the segment and a slash go before what is there. */
  method Prefix(buf: array<char>, pos: nat, seg: string) returns (at: nat)
    requires |seg| + 1 <= pos < buf.Length
    modifies buf
    ensures at == pos - |seg| - 1 && buf[buf.Length - 1] == old(buf[buf.Length - 1])
    ensures buf[at..buf.Length - 1] == "/" + seg + old(buf[pos..buf.Length - 1])
  {
    forall k | 0 <= k < |seg| {
      buf[pos - |seg| + k] := seg[k];
    }
    at := pos - |seg| - 1;
    buf[at] := '/';
  }

  /** inodepath's loop: collects the names of ip's path at the end of the buffer, before the NUL already there. */
  method Collect(t: Tree, ip: Id, buf: array<char>) returns (ok: bool, pos: nat, ghost names: seq<string>)
    requires IsDir(t, ip) && Stored(t) && buf.Length >= 2 && buf[buf.Length - 1] == '\0'
    modifies buf
    ensures ok ==> pos < buf.Length && buf[pos..buf.Length - 1] == Joined(names) && Leads(t, ip, names)
    ensures ok ==> NoNul(Joined(names)) && buf[buf.Length - 1] == '\0'
    ensures !ok ==> forall other :: Leads(t, ip, other) ==> |Printed(other)| >= buf.Length
  {
    pos := buf.Length - 1;
    var cur := ip;
    names := [];
    EndsStart(t, ip);
    while cur != ROOT
      invariant pos < buf.Length && buf[buf.Length - 1] == '\0' && (cur == ROOT || IsDir(t, cur))
      invariant Collected(t, ip, cur, names, buf[pos..buf.Length - 1])
      decreases pos
    {
      var up := UpOne(t, cur);
      if up == None || pos < |up.value.1| + 1 {
        NoRoom(t, ip, cur, names, pos, buf.Length);
        return false, pos, names;
      }
      var (parent, seg) := up.value;
      EndsStep(t, ip, cur, names);
      JoinedFirst(seg, names);
      pos := Prefix(buf, pos, seg);
      names := [seg] + names;
      cur := parent;
    }
    RootEnds(t, ip, names);
    ok := true;
  }

  lemma {:induction false} NoRoom(t: Tree, ip: Id, cur: Id, tail: seq<string>, pos: nat, size: nat)
    requires Ends(t, ip, cur, tail) && cur != ROOT && IsDir(t, cur) && |Joined(tail)| == size - 1 - pos && pos < size
    requires Above(t, cur) == None || pos < |Above(t, cur).value.1| + 1
    ensures forall other :: Leads(t, ip, other) ==> |Printed(other)| >= size
  {
    forall other | Leads(t, ip, other) ensures |Printed(other)| >= size {
      assert ViaTail(t, cur, tail, other);
      EndsStep(t, ip, cur, tail);
      JoinedFirst(Above(t, cur).value.1, tail);
      TooLong(t, ip, Above(t, cur).value.0, [Above(t, cur).value.1] + tail, other);
    }
  }

  lemma {:induction false} RootEnds(t: Tree, ip: Id, tail: seq<string>)
    requires Ends(t, ip, ROOT, tail)
    ensures Leads(t, ip, tail)
  {
    assert tail[..0] == [] && tail[0..] == tail;
    assert ViaTail(t, ROOT, tail, tail);
  }

  /** inodepath: the text of ip's path and a NUL at the front of the buffer, if there is a path and it fits. */
  method InodePath(t: Tree, ip: Id, buf: array<char>) returns (r: int)
    requires IsDir(t, ip) && Stored(t)
    modifies buf
    ensures r >= 0 <==> buf.Length >= 2 && exists names :: Leads(t, ip, names) && |Printed(names)| < buf.Length
    ensures forall names :: r >= 0 && Leads(t, ip, names) ==>
              r == |Printed(names)| < buf.Length && buf[..r] == Printed(names) && buf[r] == '\0'
    ensures r >= -1
  {
    hide Leads, Joined;
    if buf.Length < 2 {
      return -1;
    }
    buf[buf.Length - 1] := '\0';
    var ok, pos, names := Collect(t, ip, buf);
    if !ok {
      return -1;
    }
    forall other | Leads(t, ip, other) ensures other == names {
      LeadsOnce(t, ip, other, names);
    }
    if pos == buf.Length - 1 {
      JoinedEmpty(names);
      buf[0] := '/';
      buf[1] := '\0';
      assert buf[..1] == "/";
      return 1;
    }
    JoinedEmpty(names);
    ghost var text := buf[pos..buf.Length - 1];
    forall k | 0 <= k < buf.Length - pos {
      buf[k] := buf[pos + k];
    }
    assert forall k :: 0 <= k < |text| ==> text[k] in text && buf[k] == text[k];
    r := 0;
    while buf[r] != '\0'
      invariant 0 <= r <= |text| < buf.Length && text == Joined(names)
      invariant buf[..|text|] == text && buf[|text|] == '\0' && forall k :: 0 <= k < |text| ==> buf[k] != '\0'
      decreases |text| - r
    {
      r := r + 1;
    }
    assert r == |text| && names != [] && Printed(names) == text;
  }

  lemma {:induction false} JoinedEmpty(names: seq<string>)
    ensures Joined(names) == "" <==> names == []
  {
  }
}
