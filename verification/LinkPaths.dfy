/**
 Path confinement in internal/server/netdisk.go (POSIX branch): the recursive resolver
 of symbolic links and cleanUserPath on top of it. A path is the sequence of its
 components; a link target is what strings.Split makes of it at the slashes.
 */
module LinkPaths {
  import opened Text

  type Path = seq<string>

  datatype Target = Target(absolute: bool, parts: seq<string>)

  /** What lstat and readlink report of a path whose parent is no link: not there, some
      other error, anything but a link, or a link. */
  datatype Stat = Missing | Failed | Plain | Link(target: Target)

  type FileSystem = Path -> Stat

  datatype Result = Ok(path: Path) | TooManyLinks | LstatFailed | OutsideRoot

  const MAX_LINK_HOPS := 40

  predicate IsName(c: string) {
    c != "" && '/' !in c
  }

  predicate AreNames(p: Path) {
    forall i :: 0 <= i < |p| ==> IsName(p[i])
  }

  predicate SlashFree(parts: seq<string>) {
    forall i :: 0 <= i < |parts| ==> '/' !in parts[i]
  }

  /** filepath.Clean of parts appended to an already clean absolute path. */
  function Clean(acc: Path, parts: seq<string>): Path
    decreases |parts|
  {
    if parts == [] then acc
    else if parts[0] == "" || parts[0] == "." then Clean(acc, parts[1..])
    else if parts[0] == ".." then Clean(if acc == [] then [] else acc[..|acc| - 1], parts[1..])
    else Clean(acc + [parts[0]], parts[1..])
  }

  /** Where a link found in directory dir points, cleaned lexically. */
  function Expand(dir: Path, t: Target): Path {
    Clean(if t.absolute then [] else dir, t.parts)
  }

  // ----- what cleaning means -----

  /** A component that names an entry of its directory. */
  predicate IsEntry(c: string) {
    c != "" && c != "." && c != ".."
  }

  predicate AreEntries(p: Path) {
    forall i :: 0 <= i < |p| ==> IsEntry(p[i])
  }

  /** The components that count, read from the right: each ".." takes away the nearest entry
      to its left that no other takes away, if there is one. ups is how many are still to go. */
  function Survivors(parts: seq<string>, ups: nat): Path {
    if parts == [] then []
    else
      var n := |parts| - 1;
      if parts[n] == ".." then Survivors(parts[..n], ups + 1)
      else if !IsEntry(parts[n]) then Survivors(parts[..n], ups)
      else if ups > 0 then Survivors(parts[..n], ups - 1)
      else Survivors(parts[..n], 0) + [parts[n]]
  }

  /** The directory that many levels up; the root is its own parent. */
  function Up(p: Path, levels: nat): Path {
    if levels >= |p| then [] else p[..|p| - levels]
  }

  lemma CleanOne(acc: Path, parts: seq<string>)
    requires parts != []
    ensures Clean(acc, [parts[0]]) == if parts[0] == ".." then Up(acc, 1) else if IsEntry(parts[0]) then acc + [parts[0]] else acc
    ensures Clean(acc, parts) == Clean(Clean(acc, [parts[0]]), parts[1..])
  {
    assert [parts[0]][1..] == [];
  }

  lemma {:induction false} CleanAppend(acc: Path, a: seq<string>, b: seq<string>)
    ensures Clean(acc, a + b) == Clean(Clean(acc, a), b)
    decreases |a|
  {
    if a == [] {
      assert a + b == b;
    } else {
      assert (a + b)[0] == a[0] && (a + b)[1..] == a[1..] + b;
      CleanAppend(Clean(acc, [a[0]]), a[1..], b);
      CleanOne(acc, a);
    }
  }

  lemma {:induction false} SurvivorsUp(parts: seq<string>, ups: nat)
    ensures Survivors(parts, ups) == Up(Clean([], parts), ups)
  {
    if parts != [] {
      var n := |parts| - 1;
      var before := Clean([], parts[..n]);
      assert parts == parts[..n] + [parts[n]];
      CleanAppend([], parts[..n], [parts[n]]);
      CleanOne(before, [parts[n]]);
      SurvivorsUp(parts[..n], ups + 1);
      SurvivorsUp(parts[..n], ups);
      if ups > 0 {
        SurvivorsUp(parts[..n], ups - 1);
      }
    }
  }

  lemma {:induction false} EntriesStay(acc: Path, names: Path)
    requires AreEntries(names)
    ensures Clean(acc, names) == acc + names
    decreases |names|
  {
    if names == [] {
      assert acc + names == acc;
    } else {
      assert IsEntry(names[0]);
      CleanOne(acc, names);
      EntriesStay(acc + [names[0]], names[1..]);
      assert acc + [names[0]] + names[1..] == acc + names;
    }
  }

  /** Cleaning a path from the directory acc leaves what survives of the two together. */
  lemma CleanIsSurvivors(acc: Path, parts: seq<string>)
    requires AreEntries(acc)
    ensures Clean(acc, parts) == Survivors(acc + parts, 0)
  {
    EntriesStay([], acc);
    assert [] + acc == acc;
    CleanAppend([], acc, parts);
    SurvivorsUp(acc + parts, 0);
  }

  /** "..", ".", "" and names, wherever they stand. */
  lemma CleanLaws(acc: Path, a: seq<string>, c: string, b: seq<string>)
    ensures IsEntry(c) ==> Clean(acc, a + [c, ".."] + b) == Clean(acc, a + b)
    ensures c == "." || c == "" ==> Clean(acc, a + [c] + b) == Clean(acc, a + b)
    ensures Clean(acc, a + [".."] + b) == Clean(Up(Clean(acc, a), 1), b)
    ensures AreEntries(a) ==> Clean(acc, a) == acc + a
  {
    var here := Clean(acc, a);
    CleanAppend(acc, a, b);
    CleanAppend(acc, a + [c, ".."], b);
    CleanAppend(acc, a, [c, ".."]);
    CleanAppend(acc, a + [c], b);
    CleanAppend(acc, a, [c]);
    CleanAppend(acc, a + [".."], b);
    CleanAppend(acc, a, [".."]);
    CleanOne(here, [c, ".."]);
    CleanOne(here + [c], [".."]);
    CleanOne(here, [c]);
    CleanOne(here, [".."]);
    assert [c, ".."][1..] == [".."] && (here + [c])[..|here|] == here;
    if AreEntries(a) {
      EntriesStay(acc, a);
    }
  }

  /** An absolute target starts from the root, a relative one from the link's directory. */
  lemma ExpandIsSurvivors(dir: Path, t: Target)
    requires AreEntries(dir)
    ensures Expand(dir, t) == Survivors(if t.absolute then t.parts else dir + t.parts, 0)
  {
    CleanIsSurvivors(if t.absolute then [] else dir, t.parts);
    assert [] + t.parts == t.parts;
  }

  // ----- the resolver -----

  /** resolveFrom on a cleaned path. */
  function Resolve(fs: FileSystem, parts: Path, hops: nat): Result
    requires hops <= MAX_LINK_HOPS + 1
    decreases MAX_LINK_HOPS + 1 - hops, |parts|, 1
  {
    if hops > MAX_LINK_HOPS then TooManyLinks else Walk(fs, [], parts, hops)
  }

  /** The rest of its loop: resolved so far, and the components still to go. */
  function Walk(fs: FileSystem, resolved: Path, parts: Path, hops: nat): Result
    requires hops <= MAX_LINK_HOPS
    decreases MAX_LINK_HOPS + 1 - hops, |parts|, 0
  {
    if parts == [] then Ok(resolved)
    else
      var next := resolved + [parts[0]];
      match fs(next)
      case Missing => Ok(resolved + parts)
      case Failed => LstatFailed
      case Plain => Walk(fs, next, parts[1..], hops)
      case Link(t) =>
        match Resolve(fs, Expand(resolved, t), hops + 1)
        case Ok(there) => Walk(fs, there, parts[1..], hops)
        case e => e
  }

  /** resolveFrom as it runs. It ends on every file system, link cycles included. */
  method ResolveFrom(fs: FileSystem, parts: Path, hops: nat) returns (r: Result)
    requires hops <= MAX_LINK_HOPS + 1
    ensures r == Resolve(fs, parts, hops)
    decreases MAX_LINK_HOPS + 1 - hops
  {
    if hops > MAX_LINK_HOPS {
      return TooManyLinks;
    }
    var resolved: Path := [];
    assert parts[0..] == parts;
    for i := 0 to |parts|
      invariant Walk(fs, resolved, parts[i..], hops) == Walk(fs, [], parts, hops)
    {
      var next := resolved + [parts[i]];
      assert parts[i..][0] == parts[i] && parts[i..][1..] == parts[i + 1..];
      var stat := fs(next);
      if stat.Missing? {
        return Ok(resolved + parts[i..]);
      }
      if stat.Failed? {
        return LstatFailed;
      }
      if stat.Link? {
        var target := Expand(resolved, stat.target);
        var there := ResolveFrom(fs, target, hops + 1);
        if !there.Ok? {
          return there;
        }
        next := there.path;
      }
      resolved := next;
    }
    return Ok(resolved);
  }

  // ----- file systems -----

  /** The root is a directory, nothing exists below what does not exist, and link targets
      have been split at their slashes. */
  ghost predicate Sane(fs: FileSystem) {
    && fs([]).Plain?
    && (forall p: Path, c: string :: fs(p).Missing? ==> fs(p + [c]).Missing?)
    && (forall p: Path :: fs(p).Link? ==> SlashFree(fs(p).target.parts))
  }

  /** No prefix of p is a link (or cannot be looked at). */
  ghost predicate LinkFree(fs: FileSystem, p: Path) {
    forall k :: 0 <= k <= |p| ==> fs(p[..k]).Plain? || fs(p[..k]).Missing?
  }

  lemma {:induction false} MissingBelow(fs: FileSystem, p: Path, q: Path)
    requires Sane(fs) && fs(p).Missing?
    ensures fs(p + q).Missing?
  {
    if q == [] {
      assert p + q == p;
    } else {
      var n := |q| - 1;
      MissingBelow(fs, p, q[..n]);
      assert p + q == (p + q[..n]) + [q[n]];
    }
  }

  /** Walking on from a link-free path to a component that is missing. */
  lemma MissingRest(fs: FileSystem, resolved: Path, parts: Path)
    requires Sane(fs) && LinkFree(fs, resolved) && parts != [] && fs(resolved + [parts[0]]).Missing?
    ensures LinkFree(fs, resolved + parts)
  {
    var p := resolved + parts;
    forall k | 0 <= k <= |p| ensures fs(p[..k]).Plain? || fs(p[..k]).Missing? {
      if k <= |resolved| {
        assert p[..k] == resolved[..k];
      } else {
        MissingBelow(fs, resolved + [parts[0]], p[|resolved| + 1..k]);
        assert p[..k] == (resolved + [parts[0]]) + p[|resolved| + 1..k];
      }
    }
  }

  lemma PlainNext(fs: FileSystem, resolved: Path, c: string)
    requires LinkFree(fs, resolved) && fs(resolved + [c]).Plain?
    ensures LinkFree(fs, resolved + [c])
  {
    var p := resolved + [c];
    forall k | 0 <= k <= |p| ensures fs(p[..k]).Plain? || fs(p[..k]).Missing? {
      assert p[..k] == if k <= |resolved| then resolved[..k] else p;
    }
  }

  /** What the resolver returns has no link in it, however deep the links it followed. */
  lemma {:induction false} WalkLinkFree(fs: FileSystem, resolved: Path, parts: Path, hops: nat)
    requires Sane(fs) && hops <= MAX_LINK_HOPS && LinkFree(fs, resolved)
    ensures Walk(fs, resolved, parts, hops).Ok? ==> LinkFree(fs, Walk(fs, resolved, parts, hops).path)
    decreases MAX_LINK_HOPS + 1 - hops, |parts|
  {
    hide LinkFree, Clean;
    if parts != [] {
      var next := resolved + [parts[0]];
      match fs(next)
      case Missing => MissingRest(fs, resolved, parts);
      case Failed =>
      case Plain =>
        PlainNext(fs, resolved, parts[0]);
        WalkLinkFree(fs, next, parts[1..], hops);
      case Link(t) =>
        ResolveLinkFree(fs, Expand(resolved, t), hops + 1);
        var there := Resolve(fs, Expand(resolved, t), hops + 1);
        if there.Ok? {
          WalkLinkFree(fs, there.path, parts[1..], hops);
        }
    }
  }

  lemma RootLinkFree(fs: FileSystem)
    requires Sane(fs)
    ensures LinkFree(fs, [])
  {
    assert forall p: Path :: p[..0] == [];
  }

  lemma {:induction false} ResolveLinkFree(fs: FileSystem, parts: Path, hops: nat)
    requires Sane(fs) && hops <= MAX_LINK_HOPS + 1
    ensures Resolve(fs, parts, hops).Ok? ==> LinkFree(fs, Resolve(fs, parts, hops).path)
    decreases MAX_LINK_HOPS + 1 - hops, |parts| + 1
  {
    if hops <= MAX_LINK_HOPS {
      RootLinkFree(fs);
      WalkLinkFree(fs, [], parts, hops);
    }
  }

  /** Resolving a link-free path gives it back. */
  lemma {:induction false} LinkFreeWalk(fs: FileSystem, p: Path, k: nat, hops: nat)
    requires LinkFree(fs, p) && k <= |p| && hops <= MAX_LINK_HOPS
    ensures Walk(fs, p[..k], p[k..], hops) == Ok(p)
    decreases |p| - k
  {
    if k == |p| {
      assert p[..k] == p && p[k..] == [];
    } else {
      var next := p[..k] + [p[k..][0]];
      assert next == p[..k + 1] && p[k..][1..] == p[k + 1..] && p[..k] + p[k..] == p;
      LinkFreeWalk(fs, p, k + 1, hops);
    }
  }

  lemma ResolveIdempotent(fs: FileSystem, parts: Path, hops: nat, hops': nat)
    requires Sane(fs) && hops <= MAX_LINK_HOPS && hops' <= MAX_LINK_HOPS
    ensures var r := Resolve(fs, parts, hops); r.Ok? ==> LinkFree(fs, r.path) && Resolve(fs, r.path, hops') == r
  {
    hide LinkFree, Walk;
    ResolveLinkFree(fs, parts, hops);
    var r := Resolve(fs, parts, hops);
    if r.Ok? {
      LinkFreeWalk(fs, r.path, 0, hops');
      assert r.path[..0] == [] && r.path[0..] == r.path;
    }
  }

  // ----- the same file as a restarting walk -----

  /** Pathname resolution as one flat walk: on a link, start again at the root with the
      link's target put in front of what is left. fuel bounds the links followed. */
  function Follow(fs: FileSystem, done: Path, todo: Path, fuel: nat): Result
    decreases fuel, |todo|
  {
    if todo == [] then Ok(done)
    else
      var next := done + [todo[0]];
      match fs(next)
      case Missing => Ok(done + todo)
      case Failed => LstatFailed
      case Plain => Follow(fs, next, todo[1..], fuel)
      case Link(t) => if fuel == 0 then TooManyLinks else Follow(fs, [], Expand(done, t) + todo[1..], fuel - 1)
  }

  /** How many links a successful walk follows, nested ones included. */
  function WalkLinks(fs: FileSystem, resolved: Path, parts: Path, hops: nat): nat
    requires hops <= MAX_LINK_HOPS
    decreases MAX_LINK_HOPS + 1 - hops, |parts|, 0
  {
    if parts == [] then 0
    else
      var next := resolved + [parts[0]];
      match fs(next)
      case Missing => 0
      case Failed => 0
      case Plain => WalkLinks(fs, next, parts[1..], hops)
      case Link(t) =>
        match Resolve(fs, Expand(resolved, t), hops + 1)
        case Ok(there) => 1 + ResolveLinks(fs, Expand(resolved, t), hops + 1) + WalkLinks(fs, there, parts[1..], hops)
        case _ => 0
  }

  function ResolveLinks(fs: FileSystem, parts: Path, hops: nat): nat
    requires hops <= MAX_LINK_HOPS + 1
    decreases MAX_LINK_HOPS + 1 - hops, |parts|, 1
  {
    if hops > MAX_LINK_HOPS then 0 else WalkLinks(fs, [], parts, hops)
  }

  lemma MissingFollow(fs: FileSystem, resolved: Path, parts: Path, rest: Path, fuel: nat)
    requires Sane(fs) && parts != [] && fs(resolved + [parts[0]]).Missing?
    ensures Follow(fs, resolved, parts + rest, fuel) == Follow(fs, resolved + parts, rest, fuel)
  {
    assert (parts + rest)[0] == parts[0] && resolved + (parts + rest) == (resolved + parts) + rest;
    if rest == [] {
      assert (resolved + parts) + rest == resolved + parts;
    } else {
      MissingBelow(fs, resolved + [parts[0]], parts[1..] + [rest[0]]);
      assert (resolved + [parts[0]]) + (parts[1..] + [rest[0]]) == resolved + parts + [rest[0]];
    }
  }

  /** With rest still to come, the flat walk passes through the point the recursive one
      returns, having used up exactly its links. */
  lemma {:induction false} WalkIsFollowed(fs: FileSystem, resolved: Path, parts: Path, hops: nat, rest: Path, fuel: nat)
    requires Sane(fs) && hops <= MAX_LINK_HOPS
    requires Walk(fs, resolved, parts, hops).Ok?
    ensures Follow(fs, resolved, parts + rest, WalkLinks(fs, resolved, parts, hops) + fuel)
         == Follow(fs, Walk(fs, resolved, parts, hops).path, rest, fuel)
    decreases MAX_LINK_HOPS + 1 - hops, |parts|
  {
    hide Sane, Expand;
    if parts == [] {
      assert parts + rest == rest;
    } else {
      var next := resolved + [parts[0]];
      var todo := parts + rest;
      assert todo[0] == parts[0] && todo[1..] == parts[1..] + rest;
      match fs(next)
      case Missing => MissingFollow(fs, resolved, parts, rest, fuel);
      case Failed =>
      case Plain => WalkIsFollowed(fs, next, parts[1..], hops, rest, fuel);
      case Link(t) =>
        var inner := Expand(resolved, t);
        var there := Resolve(fs, inner, hops + 1).path;
        var left := WalkLinks(fs, there, parts[1..], hops) + fuel;
        WalkIsFollowed(fs, [], inner, hops + 1, parts[1..] + rest, left);
        WalkIsFollowed(fs, there, parts[1..], hops, rest, fuel);
    }
  }

  /** The recursive resolver, when it succeeds, ends exactly where the flat walk ends. */
  lemma ResolveIsFollowed(fs: FileSystem, parts: Path, hops: nat)
    requires Sane(fs) && hops <= MAX_LINK_HOPS
    ensures Resolve(fs, parts, hops).Ok? ==> Follow(fs, [], parts, ResolveLinks(fs, parts, hops)) == Resolve(fs, parts, hops)
  {
    if Resolve(fs, parts, hops).Ok? {
      WalkIsFollowed(fs, [], parts, hops, [], 0);
      assert parts + [] == parts;
    }
  }

  /** The other way round: where the flat walk gets through with no more links than the
      recursion has hops left, the recursion gets through as well, with at most as many. */
  lemma {:induction false} FollowIsWalked(fs: FileSystem, resolved: Path, parts: Path, hops: nat, rest: Path, fuel: nat)
    requires Sane(fs) && hops + fuel <= MAX_LINK_HOPS
    requires Follow(fs, resolved, parts + rest, fuel).Ok?
    ensures Walk(fs, resolved, parts, hops).Ok? && WalkLinks(fs, resolved, parts, hops) <= fuel
    decreases fuel, |parts|
  {
    hide Sane, Expand;
    if parts != [] {
      var next := resolved + [parts[0]];
      var todo := parts + rest;
      assert todo[0] == parts[0] && todo[1..] == parts[1..] + rest;
      match fs(next)
      case Missing =>
      case Failed =>
      case Plain => FollowIsWalked(fs, next, parts[1..], hops, rest, fuel);
      case Link(t) =>
        var inner := Expand(resolved, t);
        FollowIsWalked(fs, [], inner, hops + 1, parts[1..] + rest, fuel - 1);
        var there := Resolve(fs, inner, hops + 1).path;
        var left := fuel - 1 - WalkLinks(fs, [], inner, hops + 1);
        WalkIsFollowed(fs, [], inner, hops + 1, parts[1..] + rest, left);
        FollowIsWalked(fs, there, parts[1..], hops, rest, left);
    }
  }

  /** The resolver refuses no path that plain resolution reaches over at most forty links,
      and gives the same place for it. */
  lemma FollowIsResolved(fs: FileSystem, parts: Path, fuel: nat)
    requires Sane(fs) && fuel <= MAX_LINK_HOPS && Follow(fs, [], parts, fuel).Ok?
    ensures Resolve(fs, parts, 0) == Follow(fs, [], parts, fuel)
  {
    assert parts + [] == parts;
    FollowIsWalked(fs, [], parts, 0, [], fuel);
    WalkIsFollowed(fs, [], parts, 0, [], fuel - WalkLinks(fs, [], parts, 0));
  }

  // ----- single components -----

  /** What comes behind a link-free directory decides. */
  lemma {:induction false} WalkFrom(fs: FileSystem, dir: Path, k: nat, rest: Path, hops: nat)
    requires LinkFree(fs, dir) && k <= |dir| && hops <= MAX_LINK_HOPS && !fs(dir).Missing? && Sane(fs)
    ensures Walk(fs, dir[..k], dir[k..] + rest, hops) == Walk(fs, dir, rest, hops)
    decreases |dir| - k
  {
    if k == |dir| {
      assert dir[..k] == dir && dir[k..] + rest == rest;
    } else {
      var todo := dir[k..] + rest;
      assert dir[..k] + [todo[0]] == dir[..k + 1] && todo[1..] == dir[k + 1..] + rest;
      assert dir[..k + 1] + dir[k + 1..] == dir;
      if fs(dir[..k + 1]).Missing? {
        MissingBelow(fs, dir[..k + 1], dir[k + 1..]);
      }
      WalkFrom(fs, dir, k + 1, rest, hops);
    }
  }

  /** In a directory without links on the way: a component that cannot be looked at fails the
      whole, one that does not exist ends the search with all that is left kept, and a link is
      replaced by the place that its target resolves to, with one hop less to go. */
  lemma OneComponent(fs: FileSystem, dir: Path, c: string, rest: Path, hops: nat)
    requires Sane(fs) && LinkFree(fs, dir) && fs(dir).Plain? && hops <= MAX_LINK_HOPS
    ensures var r, at := Resolve(fs, dir + [c] + rest, hops), fs(dir + [c]);
            && (at.Failed? ==> r == LstatFailed)
            && (at.Missing? ==> r == Ok(dir + [c] + rest))
            && (at.Plain? ==> r == Walk(fs, dir + [c], rest, hops))
            && (at.Link? ==> var there := Resolve(fs, Expand(dir, at.target), hops + 1);
                  if !there.Ok? then r == there else !fs(there.path).Missing? ==> r == Resolve(fs, there.path + rest, hops))
  {
    hide Expand, Sane, LinkFree;
    assert dir[..0] == [] && dir[0..] + ([c] + rest) == dir + [c] + rest && ([c] + rest)[1..] == rest;
    WalkFrom(fs, dir, 0, [c] + rest, hops);
    if fs(dir + [c]).Link? {
      var there := Resolve(fs, Expand(dir, fs(dir + [c]).target), hops + 1);
      if there.Ok? && !fs(there.path).Missing? {
        ResolveLinkFree(fs, Expand(dir, fs(dir + [c]).target), hops + 1);
        assert there.path[..0] == [] && there.path[0..] + rest == there.path + rest;
        WalkFrom(fs, there.path, 0, rest, hops);
      }
    } else if fs(dir + [c]).Missing? {
      assert dir + ([c] + rest) == dir + [c] + rest;
    }
  }

  /** A link to itself is refused. */
  lemma {:induction false} SelfLink(fs: FileSystem, c: string, hops: nat)
    requires IsEntry(c) && fs([c]) == Link(Target(true, [c])) && hops <= MAX_LINK_HOPS + 1
    ensures Resolve(fs, [c], hops) == TooManyLinks
    decreases MAX_LINK_HOPS + 1 - hops
  {
    if hops <= MAX_LINK_HOPS {
      EntriesStay([], [c]);
      assert [] + [c] == [c];
      SelfLink(fs, c, hops + 1);
    }
  }

  // ----- how many links a resolution can follow -----

  /** The links behind one component, d levels deep, when each target has m components. */
  function Most(m: nat, d: nat): nat {
    if d == 0 then 0 else 1 + m * Most(m, d - 1)
  }

  ghost predicate ShortTargets(fs: FileSystem, m: nat) {
    forall p: Path :: fs(p).Link? ==> |fs(p).target.parts| <= m
  }

  /** A cleaned path is a prefix of where it started, followed by at most its own parts. */
  lemma {:induction false} CleanShape(acc: Path, parts: seq<string>) returns (j: nat)
    ensures j <= |acc| && j <= |Clean(acc, parts)| <= j + |parts| && Clean(acc, parts)[..j] == acc[..j]
    decreases |parts|
  {
    if parts == [] {
      j := |acc|;
    } else if parts[0] == "" || parts[0] == "." {
      j := CleanShape(acc, parts[1..]);
    } else if parts[0] == ".." {
      var up := if acc == [] then [] else acc[..|acc| - 1];
      j := CleanShape(up, parts[1..]);
      assert up[..j] == acc[..j];
    } else {
      var next := acc + [parts[0]];
      j := CleanShape(next, parts[1..]);
      if j > |acc| {
        j := |acc|;
        assert Clean(next, parts[1..])[..j] == next[..|next|][..j];
      }
      assert next[..j] == acc[..j];
    }
  }

  lemma PrefixLinkFree(fs: FileSystem, p: Path, j: nat)
    requires LinkFree(fs, p) && j <= |p|
    ensures LinkFree(fs, p[..j])
  {
    forall k | 0 <= k <= j ensures fs(p[..j][..k]).Plain? || fs(p[..j][..k]).Missing? {
      assert p[..j][..k] == p[..k];
    }
  }

  lemma ProductNatural(a: nat, b: nat)
    ensures a * b >= 0
  {}

  /** A link-free beginning costs no link. */
  lemma {:induction false} FreeBeginning(fs: FileSystem, p: Path, k: nat, extra: Path, hops: nat, m: nat)
    requires Sane(fs) && ShortTargets(fs, m) && LinkFree(fs, p) && k <= |p| && hops <= MAX_LINK_HOPS
    requires Walk(fs, p[..k], p[k..] + extra, hops).Ok?
    ensures WalkLinks(fs, p[..k], p[k..] + extra, hops) <= |extra| * Most(m, MAX_LINK_HOPS - hops)
    decreases MAX_LINK_HOPS + 1 - hops, |p| - k + |extra|, 1
  {
    hide Sane, ShortTargets, Most, Expand;
    ProductNatural(|extra|, Most(m, MAX_LINK_HOPS - hops));
    if k == |p| {
      assert p[..k] == p && p[k..] + extra == extra;
      LinksBound(fs, p, extra, hops, m);
    } else {
      var todo := p[k..] + extra;
      assert p[..k] + [todo[0]] == p[..k + 1] && todo[1..] == p[k + 1..] + extra;
      if fs(p[..k + 1]).Plain? {
        FreeBeginning(fs, p, k + 1, extra, hops, m);
      }
    }
  }

  lemma OneMore(n: nat, m: nat, d: nat, inner: nat, rest: nat)
    requires n > 0 && d > 0 && inner <= m * Most(m, d - 1) && rest <= (n - 1) * Most(m, d)
    ensures 1 + inner + rest <= n * Most(m, d)
  {
    assert n * Most(m, d) == (n - 1) * Most(m, d) + Most(m, d);
  }

  lemma FewerParts(e: nat, m: nat, x: nat)
    requires e <= m
    ensures e * x <= m * x
  {}

  lemma {:induction false} LinksBound(fs: FileSystem, resolved: Path, parts: Path, hops: nat, m: nat)
    requires Sane(fs) && ShortTargets(fs, m) && LinkFree(fs, resolved) && hops <= MAX_LINK_HOPS
    requires Walk(fs, resolved, parts, hops).Ok?
    ensures WalkLinks(fs, resolved, parts, hops) <= |parts| * Most(m, MAX_LINK_HOPS - hops)
    decreases MAX_LINK_HOPS + 1 - hops, |parts|, 0
  {
    hide Sane, LinkFree, Most, Clean;
    ProductNatural(|parts|, Most(m, MAX_LINK_HOPS - hops));
    if parts != [] {
      var next := resolved + [parts[0]];
      FewerParts(|parts| - 1, |parts|, Most(m, MAX_LINK_HOPS - hops));
      match fs(next)
      case Missing =>
      case Failed =>
      case Plain =>
        PlainNext(fs, resolved, parts[0]);
        LinksBound(fs, next, parts[1..], hops, m);
      case Link(t) =>
        var inner := Expand(resolved, t);
        var there := Resolve(fs, inner, hops + 1).path;
        TargetBound(fs, resolved, t, hops + 1, m);
        ResolveLinkFree(fs, inner, hops + 1);
        LinksBound(fs, there, parts[1..], hops, m);
        OneMore(|parts|, m, MAX_LINK_HOPS - hops, ResolveLinks(fs, inner, hops + 1), WalkLinks(fs, there, parts[1..], hops));
    }
  }

  lemma {:induction false} TargetBound(fs: FileSystem, dir: Path, t: Target, hops: nat, m: nat)
    requires Sane(fs) && ShortTargets(fs, m) && LinkFree(fs, dir) && |t.parts| <= m && hops <= MAX_LINK_HOPS
    requires Resolve(fs, Expand(dir, t), hops).Ok?
    ensures ResolveLinks(fs, Expand(dir, t), hops) <= m * Most(m, MAX_LINK_HOPS - hops)
    decreases MAX_LINK_HOPS + 1 - hops, |Expand(dir, t)|, 2
  {
    hide Sane, Most, Clean;
    var start := if t.absolute then [] else dir;
    RootLinkFree(fs);
    var j := CleanShape(start, t.parts);
    var inner := Expand(dir, t);
    PrefixLinkFree(fs, start, j);
    var p, extra := inner[..j], inner[j..];
    assert p[..0] == [] && p[0..] + extra == inner;
    FreeBeginning(fs, p, 0, extra, hops, m);
    FewerParts(|extra|, m, Most(m, MAX_LINK_HOPS - hops));
  }

  /** The hop limit bounds how deep links nest. The number followed is only bounded by a
      power of it: with targets of at most m components, by Most(m, 40) a component. */
  lemma ResolveLinksBound(fs: FileSystem, parts: Path, m: nat)
    requires Sane(fs) && ShortTargets(fs, m) && Resolve(fs, parts, 0).Ok?
    ensures ResolveLinks(fs, parts, 0) <= |parts| * Most(m, MAX_LINK_HOPS)
  {
    RootLinkFree(fs);
    LinksBound(fs, [], parts, 0, m);
  }

  /** A directory of forty links: "x" points to ".", and each longer name to the next
      shorter one, twice. */
  predicate IsRung(c: string) {
    0 < |c| <= MAX_LINK_HOPS && forall i :: 0 <= i < |c| ==> c[i] == 'x'
  }

  function Ladder(p: Path): Stat {
    if p == [] then Plain
    else if |p| == 1 && IsRung(p[0]) then Link(Target(false, if |p[0]| == 1 then ["."] else [p[0][1..], p[0][1..]]))
    else Missing
  }

  function Copies(c: string, n: nat): Path {
    seq(n, _ => c)
  }

  lemma RungTarget(c: string)
    requires IsRung(c)
    ensures Ladder([c]).Link? && (|c| > 1 ==> IsRung(c[1..]))
    ensures Expand([], Ladder([c]).target) == if |c| == 1 then [] else Copies(c[1..], 2)
  {
    if |c| > 1 {
      var d := c[1..];
      assert d[0] == 'x' && "."[0] == '.' && ".."[0] == '.';
      assert d != "" && d != "." && d != "..";
      var root: Path := [];
      assert root + [d] == [d] && [d] + [d] == [d, d];
      var two: Path := [d, d];
      assert two[1..] == [d] && two[1..][1..] == [];
      assert Clean(root, two) == Clean([d], [d]);
      assert Clean([d], [d]) == Clean([d, d], []);
    } else {
      assert ["."][1..] == [];
    }
  }

  lemma OneRung(n: nat, d: nat)
    requires n > 0 && d > 0
    ensures 1 + 2 * Most(2, d - 1) + (n - 1) * Most(2, d) == n * Most(2, d)
    ensures Most(2, 0) == 0
  {
    assert n * Most(2, d) == (n - 1) * Most(2, d) + Most(2, d);
  }

  /** Any number of rungs in a row lead back to the directory. */
  lemma {:induction false} RungLinks(c: string, n: nat, hops: nat)
    requires IsRung(c) && hops + |c| <= MAX_LINK_HOPS
    ensures Walk(Ladder, [], Copies(c, n), hops) == Ok([])
    ensures WalkLinks(Ladder, [], Copies(c, n), hops) == n * Most(2, |c|)
    decreases |c|, n
  {
    hide Ladder, Expand, Most;
    if n == 0 {
      assert Copies(c, 0) == [];
    } else {
      RungTarget(c);
      assert [] + [Copies(c, n)[0]] == [c] && Copies(c, n)[1..] == Copies(c, n - 1);
      RungLinks(c, n - 1, hops);
      if |c| == 1 {
        assert Resolve(Ladder, [], hops + 1) == Ok([]) && ResolveLinks(Ladder, [], hops + 1) == 0;
      } else {
        RungLinks(c[1..], 2, hops + 1);
        assert ResolveLinks(Ladder, Copies(c[1..], 2), hops + 1) == 2 * Most(2, |c| - 1);
      }
      OneRung(n, |c|);
    }
  }

  function PowerOfTwo(n: nat): nat {
    if n == 0 then 1 else 2 * PowerOfTwo(n - 1)
  }

  lemma {:induction false} MostIsPower(d: nat)
    ensures Most(2, d) == PowerOfTwo(d) - 1
  {
    if d > 0 {
      MostIsPower(d - 1);
    }
  }

  lemma LadderSane()
    ensures Sane(Ladder) && ShortTargets(Ladder, 2)
  {}

  /** The bound is reached: with forty links on disk a single component resolves, and
      follows two to the fortieth, less one. */
  lemma LadderResolves()
    ensures Sane(Ladder) && ShortTargets(Ladder, 2)
    ensures var top := Copies(seq(MAX_LINK_HOPS, _ => 'x'), 1);
            Resolve(Ladder, top, 0) == Ok([]) && ResolveLinks(Ladder, top, 0) == PowerOfTwo(40) - 1 == Most(2, MAX_LINK_HOPS)
  {
    hide Sane, ShortTargets;
    LadderSane();
    RungLinks(seq(MAX_LINK_HOPS, _ => 'x'), 1, 0);
    MostIsPower(MAX_LINK_HOPS);
  }

  // ----- confinement -----

  function Tail(p: Path): string {
    if p == [] then "" else "/" + p[0] + Tail(p[1..])
  }

  /** The path as a string. */
  function Render(p: Path): string {
    if p == [] then "/" else Tail(p)
  }

  /** pathWithin: the root itself, or the root with a separator as a prefix. */
  predicate PathWithin(root: string, p: string) {
    p == root || HasPrefix(p, root + "/")
  }

  lemma FirstSlash(c: string, x: string)
    requires '/' !in c && (x == "" || x[0] == '/')
    ensures IndexOf(c + x, '/') == |c|
  {
    if x == "" {
      assert forall j :: 0 <= j < |c| ==> (c + x)[j] == c[j] && c[j] in c;
    } else {
      assert x == [x[0]] + x[1..] && c + x == c + "/" + x[1..];
      CutFirst(c, '/', x[1..]);
    }
  }

  /** Two strings that start with a slash-free part and go on with a slash, or end. */
  lemma HeadEqual(c: string, x: string, d: string, y: string)
    requires '/' !in c && '/' !in d && (x == "" || x[0] == '/') && (y == "" || y[0] == '/')
    requires c + x == d + y
    ensures c == d && x == y
  {
    FirstSlash(c, x);
    FirstSlash(d, y);
    assert c == (c + x)[..|c|] && d == (d + y)[..|d|];
    assert x == (c + x)[|c|..] && y == (d + y)[|d|..];
  }

  lemma TailHead(a: Path, z: string)
    requires a != [] && (z == "" || z[0] == '/')
    ensures (Tail(a) + z)[1..] == a[0] + (Tail(a[1..]) + z)
    ensures var x := Tail(a[1..]) + z; x == "" || x[0] == '/'
  {
    assert Tail(a) + z == "/" + (a[0] + (Tail(a[1..]) + z));
  }

  lemma {:induction false} TailPrefix(a: Path, b: Path, z: string)
    requires AreNames(a) && AreNames(b) && Tail(b) == Tail(a) + z && (z == "" || z[0] == '/')
    ensures a <= b && Tail(b[|a|..]) == z
  {
    if a == [] {
      assert Tail(a) + z == z && b[0..] == b;
    } else if b != [] {
      assert IsName(a[0]) && IsName(b[0]);
      TailHead(a, z);
      TailHead(b, "");
      assert Tail(b) + "" == Tail(b) && Tail(b[1..]) + "" == Tail(b[1..]);
      HeadEqual(a[0], Tail(a[1..]) + z, b[0], Tail(b[1..]));
      TailPrefix(a[1..], b[1..], z);
      assert b[1..][|a| - 1..] == b[|a|..];
      assert a == [a[0]] + a[1..] && b == [b[0]] + b[1..];
    }
  }

  lemma {:induction false} TailConcat(a: Path, b: Path)
    ensures Tail(a + b) == Tail(a) + Tail(b)
  {
    if a == [] {
      assert a + b == b;
    } else {
      assert (a + b)[0] == a[0] && (a + b)[1..] == a[1..] + b;
      TailConcat(a[1..], b);
    }
  }

  lemma WithinMeansPrefix(a: Path, b: Path)
    requires AreNames(a) && AreNames(b) && PathWithin(Tail(a), Tail(b))
    ensures a <= b
  {
    hide AreNames, Tail;
    if Tail(a) == Tail(b) {
      assert Tail(b) == Tail(a) + "";
      TailPrefix(a, b, "");
    } else {
      var z := Tail(b)[|Tail(a)|..];
      assert Tail(b)[..|Tail(a) + "/"|] == Tail(a) + "/";
      assert Tail(b) == Tail(a) + z && z[0] == '/';
      TailPrefix(a, b, z);
    }
  }

  lemma PrefixIsWithin(a: Path, b: Path)
    requires a <= b
    ensures PathWithin(Tail(a), Tail(b))
  {
    var rest := b[|a|..];
    assert b == a + rest;
    TailConcat(a, rest);
    if rest == [] {
      assert Tail(a) + Tail(rest) == Tail(a);
    } else {
      var t := Tail(rest);
      assert t == "/" + t[1..];
      assert Tail(b)[..|Tail(a) + "/"|] == Tail(a) + "/";
    }
  }

  /** The string test means component-wise confinement, except at the file system root:
      nothing but "/" itself is within "/". */
  lemma WithinIff(a: Path, b: Path)
    requires AreNames(a) && AreNames(b)
    ensures PathWithin(Render(a), Render(b)) <==> a <= b && (a == [] ==> b == [])
  {
    if a == [] {
      if b != [] {
        assert IsName(b[0]);
        assert Render(b)[1] == b[0][0] && b[0][0] in b[0];
        assert (Render(a) + "/")[1] == '/';
      }
    } else if b == [] {
      assert |Tail(a)| > 1;
    } else {
      if PathWithin(Tail(a), Tail(b)) {
        WithinMeansPrefix(a, b);
      }
      if a <= b {
        PrefixIsWithin(a, b);
      }
    }
  }

  // ----- names stay names -----

  lemma {:induction false} CleanNames(acc: Path, parts: seq<string>)
    requires AreNames(acc) && SlashFree(parts)
    ensures AreNames(Clean(acc, parts))
    decreases |parts|
  {
    if parts != [] {
      if parts[0] == "" || parts[0] == "." {
        CleanNames(acc, parts[1..]);
      } else if parts[0] == ".." {
        CleanNames(if acc == [] then [] else acc[..|acc| - 1], parts[1..]);
      } else {
        CleanNames(acc + [parts[0]], parts[1..]);
      }
    }
  }

  lemma {:induction false} WalkNames(fs: FileSystem, resolved: Path, parts: Path, hops: nat)
    requires Sane(fs) && hops <= MAX_LINK_HOPS && AreNames(resolved) && AreNames(parts)
    ensures Walk(fs, resolved, parts, hops).Ok? ==> AreNames(Walk(fs, resolved, parts, hops).path)
    decreases MAX_LINK_HOPS + 1 - hops, |parts|
  {
    hide IsName, Clean;
    if parts != [] {
      var next := resolved + [parts[0]];
      match fs(next)
      case Missing =>
      case Failed =>
      case Plain => WalkNames(fs, next, parts[1..], hops);
      case Link(t) =>
        CleanNames(if t.absolute then [] else resolved, t.parts);
        ResolveNames(fs, Expand(resolved, t), hops + 1);
        var there := Resolve(fs, Expand(resolved, t), hops + 1);
        if there.Ok? {
          WalkNames(fs, there.path, parts[1..], hops);
        }
    }
  }

  lemma {:induction false} ResolveNames(fs: FileSystem, parts: Path, hops: nat)
    requires Sane(fs) && hops <= MAX_LINK_HOPS + 1 && AreNames(parts)
    ensures Resolve(fs, parts, hops).Ok? ==> AreNames(Resolve(fs, parts, hops).path)
    decreases MAX_LINK_HOPS + 1 - hops, |parts| + 1
  {
    if hops <= MAX_LINK_HOPS {
      WalkNames(fs, [], parts, hops);
    }
  }

  // ----- cleanUserPath -----

  function Confined(fs: FileSystem, root: Path, rel: seq<string>): Result {
    var full := root + Clean([], rel);
    var resolvedRoot := Resolve(fs, root, 0);
    var resolvedFull := Resolve(fs, full, 0);
    if !PathWithin(Render(root), Render(full)) then OutsideRoot
    else if !resolvedRoot.Ok? then resolvedRoot
    else if !resolvedFull.Ok? then resolvedFull
    else if !PathWithin(Render(resolvedRoot.path), Render(resolvedFull.path)) then OutsideRoot
    else resolvedFull
  }

  /** cleanUserPath on an absolute root; rel is the user's path split at its slashes. */
  method CleanUserPath(fs: FileSystem, root: Path, rel: seq<string>) returns (r: Result)
    ensures r == Confined(fs, root, rel)
  {
    var full := root + Clean([], rel);
    if !PathWithin(Render(root), Render(full)) {
      return OutsideRoot;
    }
    var resolvedRoot := ResolveFrom(fs, root, 0);
    if !resolvedRoot.Ok? {
      return resolvedRoot;
    }
    var resolvedFull := ResolveFrom(fs, full, 0);
    if !resolvedFull.Ok? {
      return resolvedFull;
    }
    if !PathWithin(Render(resolvedRoot.path), Render(resolvedFull.path)) {
      return OutsideRoot;
    }
    return resolvedFull;
  }

  /** cleanUserPath accepts exactly the paths whose resolved form lies under the resolved
      root. What it returns is free of links, resolves to itself, and lies there component
      by component. (A root that is, or resolves to, "/" admits only itself.) */
  lemma ConfinedIff(fs: FileSystem, root: Path, rel: seq<string>)
    requires Sane(fs) && AreNames(root) && SlashFree(rel)
    ensures var full := root + Survivors(rel, 0);
            var there, here := Resolve(fs, root, 0), Resolve(fs, full, 0);
            && (Confined(fs, root, rel).Ok? <==>
                  && (root == [] ==> full == [])
                  && there.Ok? && here.Ok? && there.path <= here.path && (there.path == [] ==> here.path == []))
            && (Confined(fs, root, rel).Ok? ==>
                  && Confined(fs, root, rel) == here
                  && LinkFree(fs, here.path) && Resolve(fs, here.path, 0) == here
                  && Follow(fs, [], full, ResolveLinks(fs, full, 0)) == here)
  {
    hide Resolve, LinkFree, Render, PathWithin, ResolveLinks, Follow, Survivors;
    CleanNames([], rel);
    CleanIsSurvivors([], rel);
    assert [] + rel == rel;
    var full := root + Clean([], rel);
    WithinIff(root, full);
    ResolveNames(fs, root, 0);
    ResolveNames(fs, full, 0);
    ResolveIdempotent(fs, full, 0, 0);
    ResolveIsFollowed(fs, full, 0);
    var there, here := Resolve(fs, root, 0), Resolve(fs, full, 0);
    if there.Ok? && here.Ok? {
      WithinIff(there.path, here.path);
    }
  }

  /** A step into a directory and back out of it makes no difference, link or not. */
  lemma InAndOut(fs: FileSystem, root: Path, a: seq<string>, c: string, b: seq<string>)
    requires IsEntry(c)
    ensures Confined(fs, root, a + [c, ".."] + b) == Confined(fs, root, a + b)
  {
    CleanLaws([], a, c, b);
  }

  lemma LinkFreeResolves(fs: FileSystem, p: Path)
    requires LinkFree(fs, p)
    ensures Resolve(fs, p, 0) == Ok(p)
  {
    hide Walk, LinkFree;
    LinkFreeWalk(fs, p, 0, 0);
    assert p[..0] == [] && p[0..] == p;
  }

  /** Where there is no link in the way, a path that has a root other than "/" is accepted
      and lies where its components say. */
  lemma NoLinkInTheWay(fs: FileSystem, root: Path, rel: seq<string>)
    requires Sane(fs) && AreNames(root) && root != [] && SlashFree(rel) && LinkFree(fs, root + Survivors(rel, 0))
    ensures Confined(fs, root, rel) == Ok(root + Survivors(rel, 0))
  {
    hide Resolve, LinkFree, Render, PathWithin, ResolveLinks, Follow, Survivors, Walk;
    var full := root + Survivors(rel, 0);
    ConfinedIff(fs, root, rel);
    assert full[..|root|] == root;
    PrefixLinkFree(fs, full, |root|);
    LinkFreeResolves(fs, root);
    LinkFreeResolves(fs, full);
  }
}
