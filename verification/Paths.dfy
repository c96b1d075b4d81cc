/**
 * The names that the two servers accept in secure mode, and where the paths built from them lead:
 * validate_access of tftpd/tftpd.c and tftpd_utils.cpp.
 */
module Paths {
  import opened Common
  import opened Texts

  // ---------------------------------------------------------------- the rule

  predicate At(s: string, i: int, part: string) {
    0 <= i && i + |part| <= |s| && s[i..i + |part|] == part
  }

  /** s.find(part) != npos */
  predicate Contains(s: string, part: string) {
    exists i :: 0 <= i <= |s| && At(s, i, part)
  }

  function Stripped(name: string): string {
    if name != [] && name[0] == '/' then Stripped(name[1..]) else name
  }

  /** What both servers look for. */
  predicate Climbs(name: string) {
    At(name, 0, "../") || Contains(name, "/../")
  }

  /** The file that a name stands for: what a read request opens, and the final name of an upload. */
  function Target(root: string, name: string): string {
    root + ['/'] + Stripped(name)
  }

  const SUFFIX: string := ".upload"

  // ---------------------------------------------------------------- the C++ server

  const ENOTFOUND := 1
  const EACCESS := 2
  const ERRNO_OFFSET: nat := 100

  datatype Stat = Missing | Unreachable | Present(worldReadable: bool)

  /**
   * root: g_rootdir, an absolute path; rootReachable: chdir succeeds; stats: what stat says, a path that is not
   * listed being missing; closed: the paths that cannot be opened, with the errno.
   */
  datatype Disk = Disk(root: string, rootReachable: bool, stats: map<string, Stat>, closed: map<string, nat>)

  datatype Access = Denied(error: int) | Opened(path: string)

  function OpenFile(disk: Disk, path: string): Access {
    if path in disk.closed then Denied(disk.closed[path] + ERRNO_OFFSET) else Opened(path)
  }

  function StatOf(disk: Disk, path: string): Stat {
    if path in disk.stats then disk.stats[path] else Missing
  }

  /** A file is opened for reading if anybody may read it; an upload goes to a file of its own. */
  function Validate(disk: Disk, read: bool, name: string): Access {
    var target := Target(disk.root, name);
    if Climbs(name) || !disk.rootReachable then Denied(EACCESS)
    else if !read then OpenFile(disk, target + SUFFIX)
    else
      match StatOf(disk, target)
      case Missing => Denied(ENOTFOUND)
      case Unreachable => Denied(EACCESS)
      case Present(worldReadable) => if worldReadable then OpenFile(disk, target) else Denied(EACCESS)
  }

  /** validate_access of tftpd_utils.cpp: check, then strip. */
  method ValidateCpp(disk: Disk, read: bool, name: string) returns (access: Access)
    ensures access == Validate(disk, read, name)
  {
    if At(name, 0, "../") {
      return Denied(EACCESS);
    }
    if Contains(name, "/../") {
      return Denied(EACCESS);
    }
    if !disk.rootReachable {
      return Denied(EACCESS);
    }
    var filename := name;
    while filename != [] && filename[0] == '/'
      invariant Stripped(filename) == Stripped(name)
      decreases |filename|
    {
      filename := filename[1..];
    }
    filename := disk.root + ['/'] + filename;
    var stat := StatOf(disk, filename);
    if !stat.Present? && read {
      return Denied(if stat.Missing? then ENOTFOUND else EACCESS);
    }
    var tmpname := filename;
    if read {
      if !stat.worldReadable {
        return Denied(EACCESS);
      }
    } else {
      tmpname := tmpname + SUFFIX;
    }
    return OpenFile(disk, tmpname);
  }

  // ---------------------------------------------------------------- the C server

  /** The path rule of validate_access in tftpd/tftpd.c: strip, then check. In memory the mode follows the name. */
  method ValidateC(name: string, mode: string) returns (filename: Option<string>)
    requires NulFree(name) && (mode == "netascii" || mode == "octet")
    ensures filename == if Climbs(Stripped(name)) then None else Some(Stripped(name))
  {
    var f := name;
    while f != [] && f[0] == '/'
      invariant Stripped(f) == Stripped(name) && NulFree(f)
      decreases |f|
    {
      f := f[1..];
    }
    if At(f, 0, "../") {
      return None;
    }
    var found := ScanUpward(f, mode);
    return if found then None else Some(f);
  }

  /**
   * The scan for "/../", up to a NUL. It starts behind the first byte, so for an empty name it runs over the mode
   * that follows in the packet.
   */
  method ScanUpward(name: string, mode: string) returns (found: bool)
    requires NulFree(name) && (mode == "netascii" || mode == "octet")
    ensures found <==> Contains(name, "/../")
  {
    var mem := Memory(name, mode);
    var cp := 1;
    while mem[cp] != NUL
      invariant 1 <= cp < |mem| && (name != [] ==> cp <= |name|)
      invariant forall i :: 0 <= i < cp - 1 ==> !At(name, i, "/../")
      decreases |mem| - cp
    {
      OnlyInName(name, mode, cp - 1);
      if mem[cp] == '.' && At(mem, cp - 1, "/../") {
        return true;
      }
      cp := cp + 1;
    }
    return false;
  }

  /** What a pointer to the name runs over. */
  function Memory(name: string, mode: string): string {
    name + [NUL] + mode + [NUL]
  }

  lemma {:induction false} UpwardAt(s: string, i: nat)
    ensures At(s, i, "/../") <==>
            i + 4 <= |s| && s[i] == '/' && s[i + 1] == '.' && s[i + 2] == '.' && s[i + 3] == '/'
  {
    if i + 4 <= |s| {
      assert s[i..i + 4] == [s[i], s[i + 1], s[i + 2], s[i + 3]];
    }
  }

  /** No match of the scan reaches beyond the name. */
  lemma {:induction false} OnlyInName(name: string, mode: string, i: nat)
    requires mode == "netascii" || mode == "octet"
    ensures var mem := Memory(name, mode);
            && (At(mem, i, "/../") ==> At(name, i, "/../"))
            && (At(name, i, "/../") ==> mem[i + 1] == '.' && At(mem, i, "/../"))
  {
    var mem := Memory(name, mode);
    UpwardAt(mem, i);
    UpwardAt(name, i);
    assert mem[|name|] == NUL && forall j :: |name| < j < |mem| ==> mem[j] != '/';
  }

  // ---------------------------------------------------------------- both servers refuse the same names

  lemma {:induction false} StrippedSuffix(name: string)
    ensures |Stripped(name)| <= |name| && Stripped(name) == name[|name| - |Stripped(name)|..]
    ensures |Stripped(name)| < |name| ==> name[|name| - |Stripped(name)| - 1] == '/'
  {
    if name == [] || name[0] != '/' {
    } else {
      StrippedSuffix(name[1..]);
    }
  }

  lemma {:induction false} ClimbsUnstripped(name: string)
    requires Climbs(Stripped(name))
    ensures Climbs(name)
  {
    StrippedSuffix(name);
    var s := Stripped(name);
    var k := |name| - |s|;
    if At(s, 0, "../") {
      assert name[k..k + 3] == s[0..3];
      ClimbsAt(name, k);
    } else {
      var i :| 0 <= i <= |s| && At(s, i, "/../");
      assert name[k + i..k + i + 4] == s[i..i + 4];
      assert At(name, k + i, "/../");
    }
  }

  lemma {:induction false} ClimbsStripped(name: string)
    requires Climbs(name)
    ensures Climbs(Stripped(name))
  {
    if name == [] || name[0] != '/' {
    } else {
      var rest := name[1..];
      if At(name, 0, "/../") {
        assert rest[0..3] == name[0..4][1..];
      } else {
        var i :| 0 <= i <= |name| && At(name, i, "/../");
        assert rest[i - 1..i + 3] == name[i..i + 4];
        assert At(rest, i - 1, "/../");
      }
      ClimbsStripped(rest);
    }
  }

  /** Checking before stripping and checking after it refuse exactly the same names. */
  lemma {:induction false} SameNamesRefused(name: string)
    ensures Climbs(name) <==> Climbs(Stripped(name))
  {
    if Climbs(name) {
      ClimbsStripped(name);
    }
    if Climbs(Stripped(name)) {
      ClimbsUnstripped(name);
    }
  }

  // ---------------------------------------------------------------- components

  /** What a path is made of, between the slashes. */
  function Components(path: string): (r: seq<string>)
    ensures r != []
  {
    if path == [] then [[]]
    else
      var rest := Components(path[1..]);
      if path[0] == '/' then [[]] + rest else [[path[0]] + rest[0]] + rest[1..]
  }

  lemma {:induction false} ComponentsJoined(a: string, b: string)
    ensures Components(a + ['/'] + b) == Components(a) + Components(b)
  {
    var path := a + ['/'] + b;
    if a == [] {
      assert path[1..] == b;
    } else {
      assert path[0] == a[0] && path[1..] == a[1..] + ['/'] + b;
      ComponentsJoined(a[1..], b);
    }
  }

  /** A component stands between two slashes, or between one and an end of the path. */
  lemma {:induction false} ComponentAt(path: string, k: nat) returns (i: nat)
    requires k < |Components(path)|
    ensures At(path, i, Components(path)[k])
    ensures i == 0 <==> k == 0
    ensures 0 < i ==> path[i - 1] == '/'
    ensures var e := i + |Components(path)[k]|;
            (e == |path| <==> k == |Components(path)| - 1) && (e < |path| ==> path[e] == '/')
  {
    i := 0;
    if path == [] {
    } else if 0 < k {
      var j := ComponentAt(path[1..], if path[0] == '/' then k - 1 else k);
      i := j + 1;
      AtShifted(path, j, Components(path)[k]);
    } else if path[0] != '/' {
      var j := ComponentAt(path[1..], 0);
      AtExtended(path, Components(path[1..])[0]);
    }
  }

  lemma {:induction false} AtExtended(path: string, part: string)
    requires path != [] && At(path[1..], 0, part)
    ensures At(path, 0, [path[0]] + part)
  {
    assert path[0..1 + |part|] == [path[0]] + path[1..][0..|part|];
  }

  lemma {:induction false} AtShifted(path: string, j: nat, part: string)
    requires path != [] && At(path[1..], j, part)
    ensures At(path, j + 1, part)
  {
  }

  lemma {:induction false} ClimbsAt(name: string, i: nat)
    requires At(name, i, "../") && (0 < i ==> name[i - 1] == '/')
    ensures Climbs(name)
  {
    if 0 < i {
      assert name[i - 1..i + 3] == [name[i - 1]] + name[i..i + 3];
      assert At(name, i - 1, "/../");
    }
  }

  /** A parent directory that is not the last component comes from a name that climbs. */
  lemma {:induction false} ParentInside(name: string, k: nat)
    requires k < |Components(name)| - 1 && Components(name)[k] == ".."
    ensures Climbs(name)
  {
    var i := ComponentAt(name, k);
    assert name[i..i + 3] == name[i..i + 2] + [name[i + 2]];
    ClimbsAt(name, i);
  }

  lemma {:induction false} ParentAlone()
    ensures Components("..") == [".."]
  {
    var one, two := ".", "..";
    assert one[1..] == [] && two[1..] == one;
    assert [one[0]] + [] == one && [two[0]] + one == two;
    assert Components([]) == [[]];
    assert Components(one) == [[one[0]] + Components([])[0]] + Components([])[1..];
    assert Components(two) == [[two[0]] + Components(one)[0]] + Components(one)[1..];
  }

  lemma {:induction false} UpThen(rest: string)
    ensures Components(".." + ['/'] + rest) == [".."] + Components(rest)
  {
    ParentAlone();
    ComponentsJoined("..", rest);
  }

  lemma {:induction false} ClimbsMeansParent(name: string)
    requires Climbs(name)
    ensures ".." in Components(name)
  {
    if At(name, 0, "../") {
      assert name == ".." + ['/'] + name[3..];
      UpThen(name[3..]);
    } else {
      var i :| 0 <= i <= |name| && At(name, i, "/../");
      var rest := ".." + ['/'] + name[i + 4..];
      assert name[i..i + 4] == ['/'] + ".." + ['/'];
      assert name == name[..i] + name[i..i + 4] + name[i + 4..] == name[..i] + ['/'] + rest;
      UpThen(name[i + 4..]);
      ComponentsJoined(name[..i], rest);
    }
  }

  // ---------------------------------------------------------------- the path of an upload

  /** Text without a slash behind a path only extends its last component. */
  lemma {:induction false} SuffixOnLast(path: string, suffix: string)
    requires '/' !in suffix
    ensures var c := Components(path);
            Components(path + suffix) == c[..|c| - 1] + [c[|c| - 1] + suffix]
  {
    if path == [] {
      assert path + suffix == suffix && [] + suffix == suffix;
      OneComponent(suffix);
    } else {
      assert (path + suffix)[1..] == path[1..] + suffix;
      SuffixOnLast(path[1..], suffix);
      var rest := Components(path[1..]);
      assert |rest| == 1 ==> [path[0]] + (rest[0] + suffix) == [path[0]] + rest[0] + suffix;
    }
  }

  lemma {:induction false} OneComponent(s: string)
    requires '/' !in s
    ensures Components(s) == [s]
  {
    if s == [] {
    } else {
      OneComponent(s[1..]);
      assert [s[0]] + s[1..] == s;
    }
  }

  lemma {:induction false} ClimbsWithSuffix(name: string)
    requires Climbs(name)
    ensures Climbs(name + SUFFIX)
  {
    var path := name + SUFFIX;
    if At(name, 0, "../") {
      assert path[0..3] == name[0..3];
    } else {
      var i :| 0 <= i <= |name| && At(name, i, "/../");
      assert path[i..i + 4] == name[i..i + 4];
      assert At(path, i, "/../");
    }
  }

  /** A name is refused if and only if it would put a parent directory into the path of an upload. */
  lemma {:induction false} UploadStaysBelow(root: string, name: string)
    ensures var own := Components(Stripped(name) + SUFFIX);
            && (Climbs(name) <==> ".." in own)
            && Components(Target(root, name) + SUFFIX) == Components(root) + own
  {
    var s := Stripped(name);
    var c, own := Components(s), Components(s + SUFFIX);
    SameNamesRefused(name);
    SuffixOnLast(s, SUFFIX);
    assert root + ['/'] + (s + SUFFIX) == Target(root, name) + SUFFIX;
    ComponentsJoined(root, s + SUFFIX);
    if Climbs(s) {
      ClimbsWithSuffix(s);
      ClimbsMeansParent(s + SUFFIX);
    } else if ".." in own {
      var k :| 0 <= k < |own| && own[k] == "..";
      assert own[|own| - 1][|own[|own| - 1]| - 1] == 'd';
      ParentInside(s, k);
    }
  }

  // ---------------------------------------------------------------- when a file is opened

  /** Stripping takes off all slashes in front and nothing else. */
  lemma {:induction false} StrippedOf(slashes: nat, rest: string)
    requires rest == [] || rest[0] != '/'
    ensures Stripped(seq(slashes, _ => '/') + rest) == rest
  {
    var name := seq(slashes, _ => '/') + rest;
    if slashes == 0 {
      assert name == rest;
    } else {
      assert name[1..] == seq(slashes - 1, _ => '/') + rest;
      StrippedOf(slashes - 1, rest);
    }
  }

  /** The name's part of the path of an upload has a parent directory in it. */
  predicate GoesUp(name: string) {
    ".." in Components(Stripped(name) + ".upload")
  }

  /** For every disk and name: which error a write request gets, or which file it opens, whatever stat says. */
  lemma {:induction false} WriteAccess(disk: Disk, name: string)
    ensures var path := disk.root + "/" + Stripped(name) + ".upload";
            Validate(disk, false, name) ==
              if GoesUp(name) || !disk.rootReachable then Denied(2)
              else if path in disk.closed then Denied(disk.closed[path] + 100)
              else Opened(path)
  {
    UploadStaysBelow(disk.root, name);
  }

  /** So a new file can be uploaded. */
  lemma {:induction false} WriteOpensIff(disk: Disk, name: string)
    ensures Validate(disk, false, name).Opened? <==>
            && disk.rootReachable && !GoesUp(name)
            && disk.root + "/" + Stripped(name) + ".upload" !in disk.closed
  {
    WriteAccess(disk, name);
  }

  /** The same for a read request, which needs a file that anybody may read. */
  lemma {:induction false} ReadAccess(disk: Disk, name: string)
    ensures var path := disk.root + "/" + Stripped(name);
            Validate(disk, true, name) ==
              if GoesUp(name) || !disk.rootReachable then Denied(2)
              else if path !in disk.stats || disk.stats[path] == Missing then Denied(1)
              else if disk.stats[path] != Present(true) then Denied(2)
              else if path in disk.closed then Denied(disk.closed[path] + 100)
              else Opened(path)
  {
    UploadStaysBelow(disk.root, name);
  }

  lemma {:induction false} ReadOpensIff(disk: Disk, name: string)
    ensures var path := disk.root + "/" + Stripped(name);
            Validate(disk, true, name).Opened? <==>
              && disk.rootReachable && !GoesUp(name) && path !in disk.closed
              && path in disk.stats && disk.stats[path] == Present(true)
  {
    ReadAccess(disk, name);
  }

  // ---------------------------------------------------------------- where a path leads

  predicate Stays(component: string) {
    component == "" || component == "."
  }

  /** The directories that an absolute path leads through, links aside; above the top one there is none. */
  function Resolve(components: seq<string>): seq<string> {
    if components == [] then []
    else
      var above, last := Resolve(components[..|components| - 1]), components[|components| - 1];
      if Stays(last) then above
      else if last == ".." then (if above == [] then [] else above[..|above| - 1])
      else above + [last]
  }

  function Names(components: seq<string>): seq<string> {
    if components == [] then []
    else
      var above, last := Names(components[..|components| - 1]), components[|components| - 1];
      if Stays(last) then above else above + [last]
  }

  lemma {:induction false} DescendsOnly(above: seq<string>, below: seq<string>)
    requires ".." !in below
    ensures Resolve(above + below) == Resolve(above) + Names(below)
  {
    if below == [] {
      assert above + below == above;
    } else {
      var all, init := above + below, below[..|below| - 1];
      assert all[..|all| - 1] == above + init;
      assert below[|below| - 1] in below;
      DescendsOnly(above, init);
    }
  }

  lemma {:induction false} NoNames(components: seq<string>)
    ensures Names(components) == [] <==> forall k :: 0 <= k < |components| ==> Stays(components[k])
  {
    if components == [] {
    } else {
      NoNames(components[..|components| - 1]);
    }
  }

  /** The path leads out of the directory that root leads to. */
  predicate Leaves(root: string, path: string) {
    !(Resolve(Components(root)) <= Resolve(Components(path)))
  }

  /** One step up, and no step down before it. */
  predicate EndsAbove(components: seq<string>) {
    var last := |components| - 1;
    && 0 <= last && components[last] == ".."
    && forall k :: 0 <= k < last ==> Stays(components[k])
  }

  /** No accepted name puts an upload outside the root directory while it is being received. */
  lemma {:induction false} UploadNeverLeaves(root: string, name: string)
    requires !Climbs(name)
    ensures !Leaves(root, Target(root, name) + SUFFIX)
  {
    UploadStaysBelow(root, name);
    DescendsOnly(Components(root), Components(Stripped(name) + SUFFIX));
  }

  /** Where a path leads whose parent directory, if it has one, comes last. */
  lemma {:induction false} LastDecides(above: seq<string>, init: seq<string>, last: string)
    requires ".." !in init
    ensures Resolve(above) <= Resolve(above + (init + [last])) <==>
            !(last == ".." && Names(init) == [] && Resolve(above) != [])
  {
    var all := above + (init + [last]);
    assert all[..|all| - 1] == above + init && all[|all| - 1] == last;
    DescendsOnly(above, init);
    AboveAgain(Resolve(above), Names(init));
  }

  lemma {:induction false} ParentOnlyLast(name: string)
    requires !Climbs(name)
    ensures var c := Components(name); ".." !in c[..|c| - 1]
  {
    var c := Components(name);
    forall k | 0 <= k < |c| - 1 ensures c[k] != ".." {
      if c[k] == ".." {
        ParentInside(name, k);
      }
    }
  }

  /**
   * The target itself can lie outside: for an accepted name, and a root that leads anywhere at all, exactly when
   * the name ends in a parent directory that nothing before it makes up for.
   */
  lemma {:induction false} TargetLeavesIff(root: string, name: string)
    requires !Climbs(name)
    ensures Leaves(root, Target(root, name)) <==>
            EndsAbove(Components(Stripped(name))) && Resolve(Components(root)) != []
  {
    var s := Stripped(name);
    var c := Components(s);
    var init, last := c[..|c| - 1], c[|c| - 1];
    assert c == init + [last];
    SameNamesRefused(name);
    ParentOnlyLast(s);
    ComponentsJoined(root, s);
    LastDecides(Components(root), init, last);
    NoNames(init);
  }

  lemma {:induction false} AboveAgain(root: seq<string>, names: seq<string>)
    ensures var all := root + names;
            && root <= all
            && (all != [] ==> (root <= all[..|all| - 1] <==> names != []))
  {
    var all := root + names;
    if names != [] {
      assert all[..|all| - 1] == root + names[..|names| - 1];
    }
  }

  /** Both servers accept "..", which leads out of any root directory but the top one. */
  lemma {:induction false} ParentIsAccepted(root: string)
    requires Resolve(Components(root)) != []
    ensures !Climbs("..") && Leaves(root, Target(root, "..")) && Target(root, "..") == root + "/.."
  {
    ParentAlone();
    assert Stripped("..") == "..";
    TargetLeavesIff(root, "..");
    assert root + ['/'] + ".." == root + "/..";
  }
}
