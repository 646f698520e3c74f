/** Working directories: where chdir can take a process, and what getcwd then prints. */
module WorkingDir {
  import opened Blocks
  import opened Paths
  import opened PathSpec

  const MAXPATH := 128 // the longest path of a system call, with its NUL

  predicate IsDots(name: string) {
    SameName(name, ".") || SameName(name, "..")
  }

  /** An entry of directory dp as mkfs and mkdir make it: "." is dp itself, the ".." of a root is that root, and any
      other entry for a directory has that directory's ".." pointing back. */
  ghost predicate ProperEntry(t: Tree, dp: Id, e: Entry)
    requires IsDir(t, dp)
  {
    e.inum != 0 ==>
      && e.name != ""
      && (SameName(e.name, ".") ==> e.inum == dp.inum)
      && (SameName(e.name, "..") && dp.inum == ROOTINO ==> e.inum == ROOTINO)
      && (!IsDots(e.name) && IsDir(t, Id(dp.dev, e.inum)) ==> DirLookup(t, Id(dp.dev, e.inum), "..") == Some(dp))
  }

  /** Two entries for one directory are one entry: link refuses directories. */
  ghost predicate OneName(t: Tree, dp: Id, j: nat, k: nat)
    requires IsDir(t, dp) && j < |t[dp].entries| && k < |t[dp].entries|
  {
    var (a, b) := (t[dp].entries[j], t[dp].entries[k]);
    a.inum == b.inum != 0 && !IsDots(a.name) && !IsDots(b.name) && IsDir(t, Id(dp.dev, a.inum)) ==> j == k
  }

  /** A tree of directories: proper entries with proper and unique names, and one name for each directory. */
  ghost predicate ProperTree(t: Tree) {
    && WellFormed(t) && IsDir(t, ROOT)
    && (forall dp, j: nat :: IsDir(t, dp) && j < |t[dp].entries| ==> ProperEntry(t, dp, t[dp].entries[j]))
    && (forall dp, j: nat, k: nat :: IsDir(t, dp) && j < |t[dp].entries| && k < |t[dp].entries| ==>
          OneName(t, dp, j, k))
  }

  /** The walk up from ip comes to the root, and not by way of a directory that the mount hides. */
  ghost predicate Listed(t: Tree, ip: Id) {
    ip.inum != 0 && exists names :: InSight(t, ip, names)
  }

  ghost predicate InSight(t: Tree, ip: Id, names: seq<string>) {
    Leads(t, ip, names) && !Hidden(ip, names)
  }

  // ---- one element of a path

  /** What a lookup finds is a used entry with that name. */
  lemma {:induction false} FoundEntry(es: seq<Entry>, name: string, k: nat)
    requires k <= |es| && Find(es, name, k).Some?
    ensures var j := Find(es, name, k).value; k <= j < |es| && es[j].inum != 0 && SameName(name, es[j].name)
    decreases |es| - k
  {
    if !(es[k].inum != 0 && SameName(name, es[k].name)) {
      FoundEntry(es, name, k + 1);
    }
  }

  /** An entry other than the dots is found by its inode number. */
  lemma {:induction false} FoundInum(es: seq<Entry>, inum: nat, k: nat, j: nat)
    requires k <= j < |es| && es[j].inum == inum && !IsDots(es[j].name)
    ensures FindInum(es, inum, k).Some?
    decreases |es| - k
  {
    if !(es[k].inum == inum && !SameName(es[k].name, ".") && !SameName(es[k].name, "..")) {
      FoundInum(es, inum, k + 1, j);
    }
  }

  lemma {:induction false} RootListed(t: Tree)
    ensures Listed(t, ROOT)
  {
    assert InSight(t, ROOT, []);
  }

  /** A root of the mounted disk is listed under the mount point. */
  lemma {:induction false} MountedListed(t: Tree, ip: Id)
    requires IsDir(t, ip) && ip == Id(DISK1DEV, ROOTINO)
    ensures Listed(t, ip)
  {
    assert Above(t, ip) == Some((ROOT, MOUNTS[0].name));
    var names := [MOUNTS[0].name];
    assert names[..|names| - 1] == [] && Leads(t, ROOT, []);
    assert Leads(t, ip, names);
    assert InSight(t, ip, names);
  }

  /** Going up from a listed directory. */
  lemma {:induction false} UpListed(t: Tree, ip: Id, up: Id)
    requires ProperTree(t) && Listed(t, ip) && IsDir(t, ip) && MountByTarget(ip) == None
    requires DirLookup(t, ip, "..") == Some(up)
    ensures Listed(t, up)
  {
    LookupInum(t, ip, "..");
    if ip == ROOT {
      RootsUp(t, up);
      RootListed(t);
    } else {
      var names :| InSight(t, ip, names);
      assert Above(t, ip).value.0 == up;
      assert InSight(t, up, names[..|names| - 1]);
    }
  }

  lemma {:induction false} RootsUp(t: Tree, up: Id)
    requires ProperTree(t) && DirLookup(t, ROOT, "..") == Some(up)
    ensures up == ROOT
  {
    var es := t[ROOT].entries;
    FoundEntry(es, "..", 0);
    assert ProperEntry(t, ROOT, es[Find(es, "..", 0).value]);
  }

  /** Going down from a listed directory by a name that is no mount point. */
  lemma {:induction false} DownListed(t: Tree, ip: Id, name: string, next: Id)
    requires ProperTree(t) && Listed(t, ip) && IsDir(t, ip) && MountByName(ip, name) == None && !IsDots(name)
    requires DirLookup(t, ip, name) == Some(next) && IsDir(t, next)
    ensures Listed(t, next)
  {
    hide WellFormed;
    LookupInum(t, ip, name);
    if next == ROOT {
      RootListed(t);
    } else if MountByTarget(next).Some? {
      MountedListed(t, next);
    } else {
      var es := t[ip].entries;
      FoundEntry(es, name, 0);
      var j := Find(es, name, 0).value;
      assert ProperEntry(t, ip, es[j]);
      FoundInum(es, next.inum, 0, j);
      FindInumFound(es, next.inum, 0);
      var k :| 0 <= k < |es| && es[k].inum == next.inum && es[k].name == FindInum(es, next.inum, 0).value
               && !SameName(es[k].name, ".") && !SameName(es[k].name, "..");
      assert OneName(t, ip, j, k);
      var names :| InSight(t, ip, names);
      BelowInSight(t, ip, names, next, es[j].name);
    }
  }

  lemma {:induction false} BelowInSight(t: Tree, ip: Id, names: seq<string>, next: Id, name: string)
    requires InSight(t, ip, names) && IsDir(t, next) && next != ROOT && next.dev == ip.dev && next.inum != 0
    requires Above(t, next) == Some((ip, name)) && MountByName(ip, name) == None
    ensures Listed(t, next)
  {
    var all := names + [name];
    assert all[..|all| - 1] == names;
    assert InSight(t, next, all);
  }

  lemma {:induction false} SelfLookup(t: Tree, ip: Id, name: string)
    requires ProperTree(t) && IsDir(t, ip) && SameName(name, ".") && DirLookup(t, ip, name).Some?
    ensures DirLookup(t, ip, name) == Some(ip)
  {
    var es := t[ip].entries;
    FoundEntry(es, name, 0);
    assert ProperEntry(t, ip, es[Find(es, name, 0).value]);
  }

  /** Names that agree as name fields are looked up alike. */
  lemma {:induction false} SameLookup(es: seq<Entry>, a: string, b: string, k: nat)
    requires k <= |es| && SameName(a, b)
    ensures Find(es, a, k) == Find(es, b, k)
    decreases |es| - k
  {
    if k < |es| {
      SameLookup(es, a, b, k + 1);
    }
  }

  /** One element takes a process from a listed directory to a listed one. */
  lemma {:induction false} StepListed(t: Tree, ip: Id, name: string)
    requires ProperTree(t) && Listed(t, ip) && Step(t, ip, name).Some? && IsDir(t, Step(t, ip, name).value)
    ensures Listed(t, Step(t, ip, name).value)
  {
    hide ProperTree, Listed, DirLookup;
    if SameName(name, "..") && MountByTarget(ip).Some? {
      RootListed(t);
    } else if MountByName(ip, name).Some? {
      MountedListed(t, Step(t, ip, name).value);
    } else if SameName(name, "..") {
      LookupAlike(t, ip, name, "..");
      UpListed(t, ip, Step(t, ip, name).value);
    } else if SameName(name, ".") {
      SelfLookup(t, ip, name);
    } else {
      DownListed(t, ip, name, Step(t, ip, name).value);
    }
  }

  lemma {:induction false} LookupAlike(t: Tree, ip: Id, a: string, b: string)
    requires IsDir(t, ip) && SameName(a, b)
    ensures DirLookup(t, ip, a) == DirLookup(t, ip, b)
  {
    SameLookup(t[ip].entries, a, b, 0);
  }

  /** A path takes a process from a listed directory to a listed one. */
  lemma {:induction false} ResolveListed(t: Tree, ip: Id, names: seq<string>)
    requires ProperTree(t) && Listed(t, ip) && Resolve(t, ip, names).Some? && IsDir(t, Resolve(t, ip, names).value)
    ensures Listed(t, Resolve(t, ip, names).value)
    decreases |names|
  {
    hide ProperTree, Listed, Step;
    if names != [] {
      var next := Step(t, ip, names[0]).value;
      OnlyThroughDirs(t, next, names[1..]);
      StepListed(t, ip, names[0]);
      ResolveListed(t, next, names[1..]);
    }
  }

  lemma {:induction false} OnlyThroughDirs(t: Tree, ip: Id, names: seq<string>)
    requires Resolve(t, ip, names).Some? && IsDir(t, Resolve(t, ip, names).value)
    ensures IsDir(t, ip)
  {
  }

  // ---- processes

  /** chdir: the working directory changes if the path names a directory. */
  function Chdir(t: Tree, cwd: Id, path: string): (r: Id) {
    match Namei(t, cwd, path)
    case Some(ip) => if IsDir(t, ip) then ip else cwd
    case None => cwd
  }

  /** The working directory of a process after these chdirs of its own and of those it was forked from. */
  function Cwd(t: Tree, paths: seq<string>): (r: Id) {
    if paths == [] then ROOT else Chdir(t, Cwd(t, paths[..|paths| - 1]), paths[|paths| - 1])
  }

  lemma {:induction false} ChdirListed(t: Tree, cwd: Id, path: string)
    requires ProperTree(t) && Listed(t, cwd) && IsDir(t, cwd)
    ensures Listed(t, Chdir(t, cwd, path)) && IsDir(t, Chdir(t, cwd, path))
  {
    hide Listed, Resolve;
    RootListed(t);
    var start := Start(path, cwd);
    if Resolve(t, start, Elements(path)).Some? && IsDir(t, Resolve(t, start, Elements(path)).value) {
      ResolveListed(t, start, Elements(path));
    }
  }

  lemma {:induction false} CwdListed(t: Tree, paths: seq<string>)
    requires ProperTree(t)
    ensures Listed(t, Cwd(t, paths)) && IsDir(t, Cwd(t, paths))
  {
    hide Listed, Chdir;
    if paths == [] {
      RootListed(t);
    } else {
      CwdListed(t, paths[..|paths| - 1]);
      ChdirListed(t, Cwd(t, paths[..|paths| - 1]), paths[|paths| - 1]);
    }
  }

  /** The path printed for a listed directory names it. */
  lemma {:induction false} PrintedNames(t: Tree, cwd: Id, names: seq<string>)
    requires ProperTree(t) && Listed(t, cwd) && Leads(t, cwd, names)
    ensures !Hidden(cwd, names) && forall other :: Namei(t, other, Printed(names)) == Some(cwd)
  {
    hide Leads, Resolve, Elements, Printed;
    var seen :| InSight(t, cwd, seen);
    LeadsOnce(t, cwd, names, seen);
    PathRoundTripIff(t, cwd, names);
  }

  /** Wherever chdir has taken a process, the walk of getcwd comes to the root, and the path it prints names the
      directory the process is in. No process can be in or below a directory that the mount hides. */
  lemma {:induction false} GetcwdNamesCwd(t: Tree, paths: seq<string>)
    requires ProperTree(t)
    ensures var cwd := Cwd(t, paths);
            && (exists names :: Leads(t, cwd, names))
            && forall names :: Leads(t, cwd, names) ==>
                 !Hidden(cwd, names) && forall other :: Namei(t, other, Printed(names)) == Some(cwd)
  {
    hide Leads, Resolve, Elements, Printed, Hidden;
    var cwd := Cwd(t, paths);
    CwdListed(t, paths);
    var seen :| InSight(t, cwd, seen);
    forall names | Leads(t, cwd, names)
      ensures !Hidden(cwd, names) && forall other :: Namei(t, other, Printed(names)) == Some(cwd)
    {
      PrintedNames(t, cwd, names);
    }
  }

  function Room(size: int): (n: int) {
    if size > MAXPATH then MAXPATH else size
  }

  class Process {
    var cwd: Id

    /** The process is in a directory that the walk up from it can print. */
    ghost predicate Placed(t: Tree)
      reads this
    {
      IsDir(t, cwd) && Listed(t, cwd)
    }

    /** sys_chdir. */
    method SysChdir(t: Tree, path: string) returns (r: int)
      modifies this
      ensures cwd == Chdir(t, old(cwd), path)
      ensures var ip := Namei(t, old(cwd), path);
              r == if ip.Some? && IsDir(t, ip.value) then 0 else -1
      ensures ProperTree(t) && old(Placed(t)) ==> Placed(t)
    {
      hide ProperTree, Listed, Resolve, Elements;
      if ProperTree(t) && Placed(t) {
        ChdirListed(t, cwd, path);
      }
      var ip, _ := Namex(t, path, false, cwd);
      if ip == None {
        return -1;
      }
      if !IsDir(t, ip.value) {
        return -1;
      }
      cwd := ip.value;
      r := 0;
    }

    /** sys_getcwd: the r + 1 bytes that go to the caller are a path that leads back to the working directory, and a
        NUL. It fails only for want of room. */
    method SysGetcwd(t: Tree, size: int) returns (r: int, text: string)
      requires ProperTree(t) && Stored(t) && Placed(t)
      ensures r >= 0 <==> size >= 2 && exists names :: Leads(t, cwd, names) && |Printed(names)| < Room(size)
      ensures r >= 0 ==> |text| == r + 1 && text[r] == '\0'
      ensures r >= 0 ==> forall other :: Namei(t, other, text[..r]) == Some(cwd)
      ensures r >= -1
    {
      hide ProperTree, Leads, Resolve, Elements, Printed;
      text := "";
      if size < 2 {
        return -1, text;
      }
      var buf := new char[Room(size)];
      r := InodePath(t, cwd, buf);
      if r >= 0 {
        text := buf[..r + 1];
        ghost var names :| Leads(t, cwd, names) && |Printed(names)| < buf.Length;
        PrintedNames(t, cwd, names);
        assert text[..r] == buf[..r];
      }
    }
  }

  /** The tree with the hidden directory is a proper one. */
  lemma {:induction false} ShadowedProper()
    ensures ProperTree(Shadowed())
  {
    hide Above;
    HiddenDirectory();
    var t := Shadowed();
    var hidden := Id(ROOTDEV, 5);
    assert !SameName("..", ".") && !IsDots("disk1");
    assert Find(t[hidden].entries, "..", 1) == Some(1);
    assert DirLookup(t, hidden, "..") == Some(ROOT);
    forall dp, j: nat | IsDir(t, dp) && j < |t[dp].entries| ensures ProperEntry(t, dp, t[dp].entries[j]) {
      assert dp == ROOT || dp == hidden;
    }
  }
}
