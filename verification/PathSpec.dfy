/** Path names of kernel/fs.c: directories, the mount table, and what a path resolves to. */
module PathSpec {
  import opened Blocks

  const DIRSIZ := 14
  const ROOTDEV := 1
  const DISK1DEV := 2
  const ROOTINO := 1

  /** An inode by device and number. */
  datatype Id = Id(dev: nat, inum: nat)

  /** A directory entry; inum 0 marks an unused one. The name is the bytes before a NUL or the end of the field. */
  datatype Entry = Entry(inum: nat, name: string)

  datatype Node = Dir(entries: seq<Entry>) | NotDir

  type Tree = map<Id, Node>

  datatype Mount = Mount(name: string, parent: Id, targetDev: nat)

  const ROOT := Id(ROOTDEV, ROOTINO)
  const MOUNTS := [Mount("disk1", ROOT, DISK1DEV)]

  predicate IsDir(t: Tree, ip: Id) {
    ip in t && t[ip].Dir?
  }

  // ---- names

  /** What the DIRSIZ bytes of a name field keep of s. */
  function Clip(s: string): (r: string) {
    if |s| <= DIRSIZ then s else s[..DIRSIZ]
  }

  /** namecmp. */
  predicate SameName(s: string, t: string) {
    Clip(s) == Clip(t)
  }

  /** Names that can be entries of a directory. */
  predicate Name(s: string) {
    |s| <= DIRSIZ && '/' !in s && '\0' !in s
  }

  // ---- one level

  /** The first used entry from position k on with this name. */
  function Find(es: seq<Entry>, name: string, k: nat): (r: Option<nat>)
    requires k <= |es|
    decreases |es| - k
  {
    if k == |es| then None
    else if es[k].inum != 0 && SameName(name, es[k].name) then Some(k)
    else Find(es, name, k + 1)
  }

  function DirLookup(t: Tree, dp: Id, name: string): (r: Option<Id>)
    requires IsDir(t, dp)
  {
    match Find(t[dp].entries, name, 0)
    case None => None
    case Some(k) => if k < |t[dp].entries| then Some(Id(dp.dev, t[dp].entries[k].inum)) else None
  }

  /** The first entry from position k on for inode number inum that is neither "." nor "..". */
  function FindInum(es: seq<Entry>, inum: nat, k: nat): (r: Option<string>)
    requires k <= |es|
    decreases |es| - k
  {
    if k == |es| then None
    else if es[k].inum == inum && !SameName(es[k].name, ".") && !SameName(es[k].name, "..") then Some(es[k].name)
    else FindInum(es, inum, k + 1)
  }

  function MountByName(dp: Id, name: string): (r: Option<Mount>) {
    if dp == ROOT && SameName(MOUNTS[0].name, name) then Some(MOUNTS[0]) else None
  }

  function MountByTarget(ip: Id): (r: Option<Mount>) {
    if ip.dev == MOUNTS[0].targetDev && ip.inum == ROOTINO then Some(MOUNTS[0]) else None
  }

  // ---- downwards: what a sequence of names resolves to

  function Step(t: Tree, ip: Id, name: string): (r: Option<Id>) {
    if !IsDir(t, ip) then None
    else if SameName(name, "..") && MountByTarget(ip).Some? then Some(MountByTarget(ip).value.parent)
    else if MountByName(ip, name).Some? then Some(Id(MountByName(ip, name).value.targetDev, ROOTINO))
    else DirLookup(t, ip, name)
  }

  function Resolve(t: Tree, ip: Id, names: seq<string>): (r: Option<Id>)
    decreases |names|
  {
    if names == [] then Some(ip)
    else match Step(t, ip, names[0])
         case None => None
         case Some(next) => Resolve(t, next, names[1..])
  }

  /** Where the resolution of a path begins. */
  function Start(path: string, cwd: Id): (r: Id) {
    if path != "" && path[0] == '/' then ROOT else cwd
  }

  /** namei: what a path names for a process in directory cwd. */
  function Namei(t: Tree, cwd: Id, path: string): (r: Option<Id>) {
    Resolve(t, Start(path, cwd), Elements(path))
  }

  lemma {:induction false} ResolveSplit(t: Tree, ip: Id, names: seq<string>, k: nat)
    requires k <= |names|
    ensures Resolve(t, ip, names) ==
            match Resolve(t, ip, names[..k]) case None => None case Some(mid) => Resolve(t, mid, names[k..])
    decreases |names|
  {
    if k > 0 {
      assert names[..k][0] == names[0] && names[..k][1..] == names[1..][..k - 1] && names[k..] == names[1..][k - 1..];
      match Step(t, ip, names[0]) {
        case None =>
        case Some(next) => ResolveSplit(t, next, names[1..], k - 1);
      }
    } else {
      assert names[k..] == names;
    }
  }

  // ---- upwards: the names from the root to a directory

  /** One step of inodepath: the directory above and the name there; None when the walk fails. */
  function Above(t: Tree, ip: Id): (r: Option<(Id, string)>)
    requires IsDir(t, ip)
  {
    match MountByTarget(ip)
    case Some(m) => Some((m.parent, m.name))
    case None =>
      match DirLookup(t, ip, "..")
      case None => None
      case Some(up) =>
        if !IsDir(t, up) then None
        else match FindInum(t[up].entries, ip.inum, 0)
             case None => None
             case Some(name) => if name == "" then None else Some((up, name))
  }

  /** inodepath's walk up from ip passes these names, read from the root down. */
  ghost predicate Leads(t: Tree, ip: Id, names: seq<string>)
    decreases |names|
  {
    if ip == ROOT then names == [] else
      && names != [] && IsDir(t, ip) && Above(t, ip).Some?
      && Above(t, ip).value.1 == names[|names| - 1] && Leads(t, Above(t, ip).value.0, names[..|names| - 1])
  }

  /** The walk is determined by where it starts. */
  lemma {:induction false} LeadsOnce(t: Tree, ip: Id, a: seq<string>, b: seq<string>)
    requires Leads(t, ip, a) && Leads(t, ip, b)
    ensures a == b
    decreases |a|
  {
    if ip != ROOT {
      LeadsOnce(t, Above(t, ip).value.0, a[..|a| - 1], b[..|b| - 1]);
      assert a == a[..|a| - 1] + [a[|a| - 1]] && b == b[..|b| - 1] + [b[|b| - 1]];
    }
  }

  // ---- paths as text

  /** The length of the part of s before its first slash. */
  function Span(s: string): (n: nat)
    ensures n <= |s| && '/' !in s[..n] && (n < |s| ==> s[n] == '/')
  {
    if s == "" || s[0] == '/' then 0 else
      assert s == [s[0]] + s[1..];
      assert s[..1 + Span(s[1..])] == [s[0]] + s[1..][..Span(s[1..])];
      1 + Span(s[1..])
  }

  /** The path elements of a text: the parts between slashes that are not empty, clipped to a name field. */
  function Elements(s: string): (r: seq<string>) {
    if s == "" then []
    else if s[0] == '/' then Elements(s[1..])
    else [Clip(s[..Span(s)])] + Elements(s[Span(s)..])
  }

  /** A slash before every name. */
  function Joined(names: seq<string>): (r: string) {
    if names == [] then "" else Joined(names[..|names| - 1]) + "/" + names[|names| - 1]
  }

  function Printed(names: seq<string>): (r: string) {
    if names == [] then "/" else Joined(names)
  }

  lemma {:induction false} SpanOf(a: string, b: string)
    requires '/' !in a && (b == "" || b[0] == '/')
    ensures Span(a + b) == |a|
  {
    if a != "" {
      assert (a + b)[1..] == a[1..] + b && a == [a[0]] + a[1..];
      SpanOf(a[1..], b);
    } else {
      assert a + b == b;
    }
  }

  /** A slash separates: the elements of two texts with a slash between are those of the one and then of the other. */
  lemma {:induction false} ElementsSplit(a: string, b: string)
    ensures Elements(a + "/" + b) == Elements(a) + Elements(b)
    decreases |a|
  {
    var s := a + "/" + b;
    if a == "" {
      assert s[1..] == b;
    } else if a[0] == '/' {
      assert s[1..] == a[1..] + "/" + b;
      ElementsSplit(a[1..], b);
    } else {
      var n := Span(a);
      var rest := a[n..] + "/" + b;
      assert s == a[..n] + rest;
      SpanOf(a[..n], rest);
      assert s[..n] == a[..n] && s[n..] == rest;
      ElementsSplit(a[n..], b);
      assert [Clip(a[..n])] + (Elements(a[n..]) + Elements(b)) == [Clip(a[..n])] + Elements(a[n..]) + Elements(b);
    }
  }

  /** The elements of a text that ends in one more name. */
  lemma {:induction false} ElementsAfter(a: string, name: string)
    requires name != "" && '/' !in name
    ensures Elements(a + "/" + name) == Elements(a) + [Clip(name)]
  {
    ElementsSplit(a, name);
    assert name + "" == name;
    SpanOf(name, "");
    assert name[..|name|] == name && name[|name|..] == "";
    assert Elements(name) == [Clip(name)] + Elements("");
  }

  /** Parsing what was printed gives the names back. */
  lemma {:induction false} ElementsPrinted(names: seq<string>)
    requires forall k :: 0 <= k < |names| ==> Name(names[k]) && names[k] != ""
    ensures Elements(Printed(names)) == names
  {
    if names == [] {
      assert "/"[1..] == "";
    } else {
      ElementsJoined(names);
    }
  }

  lemma {:induction false} ElementsJoined(names: seq<string>)
    requires forall k :: 0 <= k < |names| ==> Name(names[k]) && names[k] != ""
    ensures Elements(Joined(names)) == names
  {
    if names != [] {
      var n := |names| - 1;
      ElementsJoined(names[..n]);
      ElementsAfter(Joined(names[..n]), names[n]);
      assert names == names[..n] + [names[n]];
    }
  }

  // ---- absolute and relative paths

  /** A path with a slash in front names the same for every process: what the rest names in the root. */
  lemma {:induction false} AbsolutePath(t: Tree, cwd: Id, path: string)
    ensures Namei(t, cwd, "/" + path) == Namei(t, ROOT, path) == Resolve(t, ROOT, Elements(path))
  {
    assert ("/" + path)[1..] == path;
  }

  /** A path without one is walked from the working directory, element by element: after the elements of a, those of
      b are walked from where a led. */
  lemma {:induction false} RelativePath(t: Tree, cwd: Id, a: string, b: string)
    requires a != "" && a[0] != '/'
    ensures Namei(t, cwd, a) == Resolve(t, cwd, Elements(a))
    ensures Namei(t, cwd, a + "/" + b) ==
            match Namei(t, cwd, a) case None => None case Some(mid) => Resolve(t, mid, Elements(b))
  {
    hide Resolve;
    ElementsSplit(a, b);
    var names := Elements(a) + Elements(b);
    ResolveSplit(t, cwd, names, |Elements(a)|);
    assert names[..|Elements(a)|] == Elements(a) && names[|Elements(a)|..] == Elements(b);
  }

  lemma {:induction false} PrintedAbsolute(names: seq<string>)
    ensures Printed(names) != "" && Printed(names)[0] == '/'
  {
    if |names| > 1 {
      PrintedAbsolute(names[..|names| - 1]);
    } else if |names| == 1 {
      assert Joined(names[..0]) == "";
    }
  }

  // ---- printing and parsing undo each other

  /** In every directory the used entries have proper names, no two the same. */
  ghost predicate WellFormed(t: Tree) {
    forall dp, j, k :: dp in t && t[dp].Dir? && 0 <= j < |t[dp].entries| && 0 <= k < |t[dp].entries| ==>
      Proper(t[dp].entries[j], t[dp].entries[k], j == k)
  }

  predicate Proper(a: Entry, b: Entry, same: bool) {
    a.inum != 0 ==> Name(a.name) && (b.inum != 0 && a.name == b.name ==> same)
  }

  lemma {:induction false} FindInumFound(es: seq<Entry>, inum: nat, k: nat)
    requires k <= |es| && FindInum(es, inum, k).Some?
    ensures exists j :: k <= j < |es| && es[j].inum == inum && es[j].name == FindInum(es, inum, k).value
                        && !SameName(es[j].name, ".") && !SameName(es[j].name, "..")
    decreases |es| - k
  {
    if !(es[k].inum == inum && !SameName(es[k].name, ".") && !SameName(es[k].name, "..")) {
      FindInumFound(es, inum, k + 1);
    }
  }

  lemma {:induction false} FindUnique(es: seq<Entry>, k: nat, j: nat)
    requires k <= j < |es| && es[j].inum != 0
    requires forall i :: 0 <= i < |es| ==> Proper(es[i], es[j], i == j) && Proper(es[j], es[i], i == j)
    ensures Find(es, es[j].name, k) == Some(j)
    decreases |es| - k
  {
    if k < j {
      assert Proper(es[k], es[j], k == j);
      FindUnique(es, k + 1, j);
    }
  }

  /** Going up and then down by the name found there comes back, unless a mount hides the name. */
  lemma {:induction false} StepBack(t: Tree, ip: Id)
    requires WellFormed(t) && IsDir(t, ip) && ip.inum != 0 && Above(t, ip).Some? && IsDir(t, ROOT)
    ensures var (up, name) := Above(t, ip).value;
            && Name(name) && name != "" && !SameName(name, "..")
            && (if MountByTarget(ip).Some? then up == ROOT && Step(t, up, name) == Some(ip)
                else && up.dev == ip.dev && up.inum != 0 && IsDir(t, up)
                     && (!(up == ROOT && name == MOUNTS[0].name) ==> Step(t, up, name) == Some(ip)))
  {
    if MountByTarget(ip) == None {
      var (up, name) := Above(t, ip).value;
      LookupInum(t, ip, "..");
      FindInumFound(t[up].entries, ip.inum, 0);
      var es := t[up].entries;
      var j :| 0 <= j < |es| && es[j].inum == ip.inum && es[j].name == name && !SameName(es[j].name, "..");
      assert Proper(es[j], es[j], true);
      FindUnique(es, 0, j);
    }
  }

  lemma {:induction false} FindUsed(es: seq<Entry>, name: string, k: nat)
    requires k <= |es| && Find(es, name, k).Some?
    ensures var j := Find(es, name, k).value; k <= j < |es| && es[j].inum != 0
    decreases |es| - k
  {
    if !(es[k].inum != 0 && SameName(name, es[k].name)) {
      FindUsed(es, name, k + 1);
    }
  }

  lemma {:induction false} LookupInum(t: Tree, dp: Id, name: string)
    requires IsDir(t, dp) && DirLookup(t, dp, name).Some?
    ensures DirLookup(t, dp, name).value.dev == dp.dev && DirLookup(t, dp, name).value.inum != 0
  {
    FindUsed(t[dp].entries, name, 0);
  }

  /** The directory lies, on the root disk, under the name where another disk is mounted. */
  predicate Hidden(ip: Id, names: seq<string>) {
    ip.dev == ROOTDEV && names != [] && names[0] == MOUNTS[0].name
  }

  lemma {:induction false} LeadsNames(t: Tree, ip: Id, names: seq<string>)
    requires WellFormed(t) && IsDir(t, ROOT) && ip.inum != 0 && Leads(t, ip, names)
    ensures forall k :: 0 <= k < |names| ==> Name(names[k]) && names[k] != "" && !SameName(names[k], "..")
    decreases |names|
  {
    if ip != ROOT {
      StepBack(t, ip);
      var n := |names| - 1;
      LeadsNames(t, Above(t, ip).value.0, names[..n]);
      assert names == names[..n] + [names[n]];
    }
  }

  lemma {:induction false} LeadsBack(t: Tree, ip: Id, names: seq<string>)
    requires WellFormed(t) && IsDir(t, ROOT) && ip.inum != 0 && Leads(t, ip, names) && !Hidden(ip, names)
    ensures Resolve(t, ROOT, names) == Some(ip)
    decreases |names|
  {
    if ip != ROOT {
      StepBack(t, ip);
      var n := |names| - 1;
      var (up, name) := Above(t, ip).value;
      assert !Hidden(up, names[..n]);
      LeadsBack(t, up, names[..n]);
      ResolveSplit(t, ROOT, names, n);
      assert names[n..] == [name];
      assert Resolve(t, up, [name]) == Step(t, up, name) by {
        assert [name][1..] == [];
      }
    }
  }

  /** On the second disk, names other than ".." never lead off it. */
  lemma {:induction false} StaysOnDisk(t: Tree, ip: Id, names: seq<string>)
    requires ip.dev == DISK1DEV && Resolve(t, ip, names).Some?
    requires forall k :: 0 <= k < |names| ==> !SameName(names[k], "..")
    ensures Resolve(t, ip, names).value.dev == DISK1DEV
    decreases |names|
  {
    if names != [] {
      LookupInum(t, ip, names[0]);
      StaysOnDisk(t, Step(t, ip, names[0]).value, names[1..]);
    }
  }

  /** namex of what inodepath prints is the directory it was printed for, exactly when that directory does not lie on
      the root disk under the name of the mount point. */
  lemma {:induction false} PathRoundTripIff(t: Tree, ip: Id, names: seq<string>)
    requires WellFormed(t) && IsDir(t, ROOT) && ip.inum != 0 && Leads(t, ip, names)
    ensures Elements(Printed(names)) == names
    ensures Resolve(t, ROOT, Elements(Printed(names))) == Some(ip) <==> !Hidden(ip, names)
    ensures forall cwd :: Namei(t, cwd, Printed(names)) == Some(ip) <==> !Hidden(ip, names)
  {
    LeadsNames(t, ip, names);
    ElementsPrinted(names);
    PrintedAbsolute(names);
    if !Hidden(ip, names) {
      LeadsBack(t, ip, names);
    } else if Resolve(t, ROOT, names).Some? {
      assert Step(t, ROOT, names[0]) == Some(Id(DISK1DEV, ROOTINO));
      StaysOnDisk(t, Id(DISK1DEV, ROOTINO), names[1..]);
    }
  }

  /** A directory of the root disk with the mount point's name. */
  ghost function Shadowed(): (t: Tree) {
    map[ROOT := Dir([Entry(1, "."), Entry(1, ".."), Entry(5, "disk1")]),
        Id(ROOTDEV, 5) := Dir([Entry(5, "."), Entry(1, "..")])]
  }

  lemma {:induction false} ShadowedAbove()
    ensures var t := Shadowed(); IsDir(t, Id(ROOTDEV, 5)) && Above(t, Id(ROOTDEV, 5)) == Some((ROOT, "disk1"))
  {
    var t := Shadowed();
    var es := t[ROOT].entries;
    assert !SameName("..", ".");
    assert Find(t[Id(ROOTDEV, 5)].entries, "..", 1) == Some(1);
    assert DirLookup(t, Id(ROOTDEV, 5), "..") == Some(ROOT);
    assert FindInum(es, 5, 2) == Some("disk1");
    assert FindInum(es, 5, 1) == Some("disk1");
  }

  /** It would be printed as "/disk1", which names the other disk's root. */
  lemma {:induction false} HiddenDirectory()
    ensures WellFormed(Shadowed()) && Leads(Shadowed(), Id(ROOTDEV, 5), ["disk1"]) && Hidden(Id(ROOTDEV, 5), ["disk1"])
    ensures Resolve(Shadowed(), ROOT, ["disk1"]) == Some(Id(DISK1DEV, ROOTINO))
  {
    hide Above, DirLookup;
    ShadowedAbove();
    assert ["disk1"][..0] == [] && ["disk1"][1..] == [];
    assert Step(Shadowed(), ROOT, "disk1") == Some(Id(DISK1DEV, ROOTINO));
  }
}
