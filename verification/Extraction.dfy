/** Extracting untrusted archives: the lexical check of symlink targets
    (`symlink_stays_inside`) and the entry and byte budgets of `extract_zip_reader`. */
module Extraction {
  import opened Bytes
  import opened Options

  /** `std::path::Component` */
  datatype Component = Normal(name: string) | CurDir | ParentDir | RootDir | Prefix

  type Path = seq<Component>

  predicate IsAbsolute(path: Path) {
    path != [] && path[0].RootDir?
  }

  /** No component starts again from a root. */
  predicate IsRelative(path: Path) {
    forall i | 0 <= i < |path| :: !path[i].RootDir? && !path[i].Prefix?
  }

  /** How far below the workspace root a path of `n` directories is, after all of `steps`. */
  function Height(n: nat, steps: Path): int {
    if steps == [] then n
    else
      var last := steps[|steps| - 1];
      Height(n, steps[..|steps| - 1]) + if last.Normal? then 1 else if last.ParentDir? then -1 else 0
  }

  /** No step of the way leads above the root. */
  predicate NeverAbove(n: nat, target: Path) {
    forall k | 0 <= k <= |target| :: Height(n, target[..k]) >= 0
  }

  lemma HeightOneMore(n: nat, target: Path, k: nat)
    requires k < |target|
    ensures Height(n, target[..k + 1]) ==
            Height(n, target[..k]) + if target[k].Normal? then 1 else if target[k].ParentDir? then -1 else 0
  {
    assert target[..k + 1][..k] == target[..k];
  }

  /** `symlink_stays_inside`, for a link in the directory `parent`: names below the root. */
  method SymlinkStaysInside(parent: seq<string>, target: Path) returns (inside: bool)
    ensures inside <==> IsRelative(target) && NeverAbove(|parent|, target)
  {
    if IsAbsolute(target) {
      return false;
    }
    var depth := |parent|;
    for i := 0 to |target|
      invariant depth == Height(|parent|, target[..i])
      invariant IsRelative(target[..i])
      invariant forall k | 0 <= k <= i :: Height(|parent|, target[..k]) >= 0
    {
      HeightOneMore(|parent|, target, i);
      match target[i]
      case Normal(_) => depth := depth + 1;
      case CurDir =>
      case ParentDir =>
        if depth == 0 {
          assert Height(|parent|, target[..i + 1]) < 0;
          return false;
        }
        depth := depth - 1;
      case _ => return false;
    }
    assert target[..|target|] == target;
    inside := true;
  }

  // ---- What the counter stands for ----

  /** Lexical resolution: the directories entered, or `None` once it leaves the root. */
  function Resolve(dirs: seq<string>, target: Path): Option<seq<string>>
    decreases |target|
  {
    if target == [] then Some(dirs)
    else
      match target[0]
      case Normal(name) => Resolve(dirs + [name], target[1..])
      case CurDir => Resolve(dirs, target[1..])
      case ParentDir => if dirs == [] then None else Resolve(dirs[..|dirs| - 1], target[1..])
      case _ => None
  }

  lemma {:induction false} HeightShift(n: nat, target: Path, k: nat)
    requires 0 < k <= |target| && Height(n, target[..1]) >= 0
    ensures Height(n, target[..k]) == Height(Height(n, target[..1]), target[1..][..k - 1])
    decreases k
  {
    if k > 1 {
      HeightShift(n, target, k - 1);
      HeightOneMore(n, target, k - 1);
      HeightOneMore(Height(n, target[..1]), target[1..], k - 2);
    } else {
      assert target[1..][..0] == [];
    }
  }

  lemma FirstHeight(n: nat, target: Path)
    requires target != []
    ensures Height(n, target[..1]) == n + if target[0].Normal? then 1 else if target[0].ParentDir? then -1 else 0
  {
    assert target[..1][..0] == [];
  }

  lemma NeverAboveBehind(n: nat, target: Path)
    requires target != [] && Height(n, target[..1]) >= 0
    ensures NeverAbove(n, target) <==> NeverAbove(Height(n, target[..1]), target[1..])
  {
    var m := Height(n, target[..1]);
    forall k | 0 < k <= |target| ensures Height(n, target[..k]) == Height(m, target[1..][..k - 1]) {
      HeightShift(n, target, k);
    }
    if NeverAbove(n, target) {
      forall k | 0 <= k <= |target| - 1 ensures Height(m, target[1..][..k]) >= 0 {
        assert Height(n, target[..k + 1]) >= 0;
      }
    }
    assert target[..0] == [];
  }

  /** The counter answers yes exactly when the resolution of the whole target, from the link's
      parent, stays below the root at every step. */
  lemma {:induction false} ResolvesInside(dirs: seq<string>, target: Path)
    ensures Resolve(dirs, target).Some? <==> IsRelative(target) && NeverAbove(|dirs|, target)
    decreases |target|
  {
    if target == [] {
      assert target[..0] == [];
    } else {
      FirstHeight(|dirs|, target);
      var m := Height(|dirs|, target[..1]);
      assert IsRelative(target) <==> !target[0].RootDir? && !target[0].Prefix? && IsRelative(target[1..]) by {
        assert target == [target[0]] + target[1..];
      }
      if m < 0 {
        assert !NeverAbove(|dirs|, target);
      } else {
        NeverAboveBehind(|dirs|, target);
        match target[0]
        case Normal(name) => ResolvesInside(dirs + [name], target[1..]);
        case CurDir => ResolvesInside(dirs, target[1..]);
        case ParentDir => ResolvesInside(dirs[..|dirs| - 1], target[1..]);
        case _ =>
      }
    }
  }

  // ---- The lexical check and links on the way ----

  /** Where a walk ends that follows the links it meets. */
  datatype Place = Inside(dirs: seq<string>) | Outside | TooManyLinks

  /** The walk from the directory `dirs`, as an operating system resolves a path; it follows at
      most `hops` links. */
  function Walk(links: map<seq<string>, Path>, dirs: seq<string>, path: Path, hops: nat): Place
    decreases hops, |path|
  {
    if path == [] then Inside(dirs)
    else
      match path[0]
      case Normal(name) =>
        var next := dirs + [name];
        if next !in links then Walk(links, next, path[1..], hops)
        else if hops == 0 then TooManyLinks
        else Walk(links, dirs, links[next] + path[1..], hops - 1)
      case CurDir => Walk(links, dirs, path[1..], hops)
      case ParentDir => if dirs == [] then Outside else Walk(links, dirs[..|dirs| - 1], path[1..], hops)
      case _ => Outside
  }

  /** Without links the walk is the lexical resolution. */
  lemma {:induction false} WalkWithoutLinks(dirs: seq<string>, path: Path, hops: nat)
    ensures Walk(map[], dirs, path, hops) ==
            match Resolve(dirs, path) { case Some(to) => Inside(to) case None => Outside }
    decreases |path|
  {
    if path != [] {
      match path[0]
      case Normal(name) => WalkWithoutLinks(dirs + [name], path[1..], hops);
      case CurDir => WalkWithoutLinks(dirs, path[1..], hops);
      case ParentDir =>
        if dirs != [] {
          WalkWithoutLinks(dirs[..|dirs| - 1], path[1..], hops);
        }
      case _ =>
    }
  }

  /** No name stands before a parent step. */
  predicate UpsFirst(path: Path) {
    forall i, j | 0 <= i < j < |path| && path[j].ParentDir? :: !path[i].Normal?
  }

  function Ups(path: Path): nat {
    if path == [] then 0 else (if path[0].ParentDir? then 1 else 0) + Ups(path[1..])
  }

  /** Links the check lets through, with their parent steps first. */
  predicate Accepted(links: map<seq<string>, Path>) {
    forall key | key in links ::
      key != [] && IsRelative(links[key]) && NeverAbove(|key| - 1, links[key]) && UpsFirst(links[key])
  }

  /** In the company of such links the target never leads outside. */
  ghost predicate StaysInside(parent: seq<string>, target: Path) {
    forall links, hops: nat | Accepted(links) :: Walk(links, parent, target, hops) != Outside
  }

  lemma {:induction false} UpsAreCounted(path: Path)
    ensures Ups(path) == 0 <==> forall j | 0 <= j < |path| :: !path[j].ParentDir?
  {
    if path != [] {
      UpsAreCounted(path[1..]);
      assert path == [path[0]] + path[1..];
    }
  }

  lemma {:induction false} UpsAddUp(a: Path, b: Path)
    ensures Ups(a + b) == Ups(a) + Ups(b)
  {
    if a == [] {
      assert a + b == b;
    } else {
      assert (a + b)[1..] == a[1..] + b;
      UpsAddUp(a[1..], b);
    }
  }

  lemma BehindFirst(path: Path)
    requires path != [] && IsRelative(path)
    ensures IsRelative(path[1..])
    ensures UpsFirst(path) <==> UpsFirst(path[1..]) && (path[0].Normal? ==> Ups(path[1..]) == 0)
  {
    var rest := path[1..];
    UpsAreCounted(rest);
    assert path == [path[0]] + rest;
    if UpsFirst(path) {
      forall j | 0 <= j < |rest| && path[0].Normal? ensures !rest[j].ParentDir? {
        assert rest[j] == path[j + 1];
      }
      forall i, j | 0 <= i < j < |rest| && rest[j].ParentDir? ensures !rest[i].Normal? {
        assert rest[i] == path[i + 1] && rest[j] == path[j + 1];
      }
    }
  }

  /** As many directories as parent steps are enough. */
  lemma {:induction false} UpsAreEnough(n: nat, path: Path)
    requires IsRelative(path) && UpsFirst(path) && NeverAbove(n, path)
    ensures Ups(path) <= n
    decreases |path|
  {
    if path != [] {
      BehindFirst(path);
      FirstHeight(n, path);
      assert Height(n, path[..1]) >= 0;
      if !path[0].Normal? {
        NeverAboveBehind(n, path);
        UpsAreEnough(Height(n, path[..1]), path[1..]);
      }
    }
  }

  lemma TargetInPlace(target: Path, rest: Path)
    requires IsRelative(target) && UpsFirst(target) && IsRelative(rest) && Ups(rest) == 0
    ensures IsRelative(target + rest) && UpsFirst(target + rest) && Ups(target + rest) == Ups(target)
  {
    UpsAreCounted(rest);
    UpsAddUp(target, rest);
  }

  lemma {:induction false} UpsFirstStaysInside(links: map<seq<string>, Path>, dirs: seq<string>, path: Path, hops: nat)
    requires Accepted(links) && IsRelative(path) && UpsFirst(path) && Ups(path) <= |dirs|
    ensures Walk(links, dirs, path, hops) != Outside
    decreases hops, |path|
  {
    if path != [] {
      BehindFirst(path);
      match path[0]
      case Normal(name) =>
        var next := dirs + [name];
        if next !in links {
          UpsFirstStaysInside(links, next, path[1..], hops);
        } else if hops > 0 {
          UpsAreEnough(|dirs|, links[next]);
          TargetInPlace(links[next], path[1..]);
          UpsFirstStaysInside(links, dirs, links[next] + path[1..], hops - 1);
        }
      case CurDir => UpsFirstStaysInside(links, dirs, path[1..], hops);
      case ParentDir => UpsFirstStaysInside(links, dirs[..|dirs| - 1], path[1..], hops);
      case _ =>
    }
  }

  /** `n` parent steps. */
  function Up(n: nat): (path: Path)
    ensures IsRelative(path) && UpsFirst(path) && |path| == n
  {
    seq(n, _ => ParentDir)
  }

  lemma {:induction false} UpIsAccepted(n: nat, k: nat)
    requires k <= n
    ensures Height(n, Up(n)[..k]) == n - k
    decreases k
  {
    if k > 0 {
      UpIsAccepted(n, k - 1);
      HeightOneMore(n, Up(n), k - 1);
    }
  }

  lemma LinkToRoot(key: seq<string>)
    requires key != []
    ensures Accepted(map[key := Up(|key| - 1)])
  {
    var n := |key| - 1;
    forall k | 0 <= k <= n ensures Height(n, Up(n)[..k]) >= 0 {
      UpIsAccepted(n, k);
    }
  }

  lemma {:induction false} WalkUp(links: map<seq<string>, Path>, dirs: seq<string>, path: Path, hops: nat)
    ensures Walk(links, dirs, Up(|dirs|) + path, hops) == Walk(links, [], path, hops)
    decreases |dirs|
  {
    if dirs == [] {
      assert Up(0) + path == path;
    } else {
      var above := dirs[..|dirs| - 1];
      assert (Up(|dirs|) + path)[1..] == Up(|above|) + path;
      WalkUp(links, above, path, hops);
    }
  }

  function Dots(path: Path): (n: nat)
    ensures n <= |path|
  {
    if path != [] && path[0].CurDir? then 1 + Dots(path[1..]) else 0
  }

  lemma {:induction false} SkipDots(links: map<seq<string>, Path>, dirs: seq<string>, path: Path, hops: nat)
    requires IsRelative(path)
    ensures var rest := path[Dots(path)..];
            && Walk(links, dirs, path, hops) == Walk(links, dirs, rest, hops)
            && IsRelative(rest) && Ups(rest) == Ups(path) && (rest != [] ==> !rest[0].CurDir?)
    decreases |path|
  {
    if path != [] && path[0].CurDir? {
      BehindDot(path);
      SkipDots(links, dirs, path[1..], hops);
    }
  }

  lemma BehindDot(path: Path)
    requires path != [] && path[0].CurDir? && IsRelative(path)
    ensures path[Dots(path)..] == path[1..][Dots(path[1..])..] && IsRelative(path[1..])
  {
  }

  /** A link that leads back to the root makes a later parent step lead out. */
  lemma {:induction false} OutThroughLink(dirs: seq<string>, name: string, rest: Path) returns (key: seq<string>)
    requires IsRelative(rest) && Ups(rest) > 0
    ensures |key| > |dirs| && Walk(map[key := Up(|key| - 1)], dirs, [Normal(name)] + rest, 1) == Outside
    decreases |rest|
  {
    var next := dirs + [name];
    SkipDots(map[], next, rest, 1);
    var behind := rest[Dots(rest)..];
    assert ([Normal(name)] + rest)[1..] == rest;
    if behind[0].Normal? {
      assert behind == [behind[0]] + behind[1..];
      key := OutThroughLink(next, behind[0].name, behind[1..]);
      SkipDots(map[key := Up(|key| - 1)], next, rest, 1);
    } else {
      key := next;
      var links := map[key := Up(|dirs|)];
      WalkUp(links, dirs, rest, 0);
      SkipDots(links, [], rest, 0);
    }
  }

  lemma {:induction false} OutSomewhere(dirs: seq<string>, path: Path) returns (key: seq<string>)
    requires IsRelative(path) && !UpsFirst(path)
    ensures key != [] && Walk(map[key := Up(|key| - 1)], dirs, path, 1) == Outside
    decreases |path|
  {
    BehindFirst(path);
    match path[0]
    case Normal(name) =>
      if Ups(path[1..]) > 0 {
        assert path == [path[0]] + path[1..];
        key := OutThroughLink(dirs, name, path[1..]);
      } else {
        UpsAreCounted(path[1..]);
        assert false;
      }
    case CurDir => key := OutSomewhere(dirs, path[1..]);
    case ParentDir =>
      if dirs == [] {
        key := [""];
      } else {
        key := OutSomewhere(dirs[..|dirs| - 1], path[1..]);
      }
  }

  /** The check alone does not keep a link inside: a name before a parent step may be a link
      itself. Of the targets it lets through, exactly those with their parent steps first stay
      inside whatever other such links there are. */
  lemma {:induction false} StaysInsideExactly(parent: seq<string>, target: Path)
    requires IsRelative(target) && NeverAbove(|parent|, target)
    ensures StaysInside(parent, target) <==> UpsFirst(target)
  {
    if UpsFirst(target) {
      UpsAreEnough(|parent|, target);
      forall links, hops: nat | Accepted(links) ensures Walk(links, parent, target, hops) != Outside {
        UpsFirstStaysInside(links, parent, target, hops);
      }
    } else {
      var key := OutSomewhere(parent, target);
      LinkToRoot(key);
    }
  }

  lemma EnterName(links: map<seq<string>, Path>, dirs: seq<string>, name: string, rest: Path)
    ensures Resolve(dirs, [Normal(name)] + rest) == Resolve(dirs + [name], rest)
    ensures Walk(links, dirs, [Normal(name)] + rest, 1) ==
            if dirs + [name] in links then Walk(links, dirs, links[dirs + [name]] + rest, 0)
            else Walk(links, dirs + [name], rest, 1)
  {
    assert ([Normal(name)] + rest)[1..] == rest;
  }

  lemma LinkThenUp(links: map<seq<string>, Path>, dirs: seq<string>, name: string, key: seq<string>, end: Path)
    requires key == dirs + [name] && key in links && links[key] == Up(|dirs|) && end == [ParentDir]
    ensures Walk(links, dirs, [Normal(name)] + end, 1) == Outside
    ensures Resolve(dirs, [Normal(name)] + end) == Some(dirs)
  {
    EnterName(links, dirs, name, end);
    WalkUp(links, dirs, end, 0);
    assert end[1..] == [] && key[..|key| - 1] == dirs;
  }

  lemma TwoNames(links: map<seq<string>, Path>, a: string, b: string, rest: Path)
    requires [a] !in links && [a, b] !in links
    ensures Walk(links, [], [Normal(a)] + ([Normal(b)] + rest), 1) == Walk(links, [a, b], rest, 1)
    ensures Resolve([], [Normal(a)] + ([Normal(b)] + rest)) == Resolve([a, b], rest)
  {
    assert [] + [a] == [a] && [a] + [b] == [a, b];
    EnterName(links, [], a, [Normal(b)] + rest);
    EnterName(links, [a], b, rest);
  }

  /** A link `a/b/s` to `../..` makes a link to `a/b/s/..` lead out, and both are let through. */
  lemma {:induction false} PairLeadsOut(a: string, b: string, s: string, up: Path, t: Path)
    requires up == [ParentDir, ParentDir] && t == [Normal(a), Normal(b), Normal(s), ParentDir]
    ensures IsRelative(up) && NeverAbove(2, up) && IsRelative(t) && NeverAbove(0, t)
    ensures Resolve([], t) == Some([a, b]) && Walk(map[[a, b, s] := up], [], t, 1) == Outside
  {
    var key, end := [a, b, s], [ParentDir];
    assert up == Up(2) && key == [a, b] + [s];
    LinkToRoot(key);
    LinkThenUp(map[key := up], [a, b], s, key, end);
    TwoNames(map[key := up], a, b, [Normal(s)] + end);
    assert t == [Normal(a)] + ([Normal(b)] + ([Normal(s)] + end));
    ResolvesInside([], t);
  }

  // ---- Budgets ----

  const U64_MAX: nat := 0xFFFF_FFFF_FFFF_FFFF

  /** An entry of an archive; a file's real size, whatever the archive says it is. */
  datatype Entry = Directory | Symlink(parent: seq<string>, target: Path) | File(size: nat)

  datatype Limits = Limits(maxEntries: nat, maxTotalBytes: nat)

  datatype Result = Extracted | TooManyEntries | TooLarge | OtherError

  function SizeOf(e: Entry): nat {
    if e.File? then e.size else 0
  }

  function TotalSize(entries: seq<Entry>): nat {
    if entries == [] then 0 else TotalSize(entries[..|entries| - 1]) + SizeOf(entries[|entries| - 1])
  }

  lemma TotalOneMore(entries: seq<Entry>, i: nat)
    requires i < |entries|
    ensures TotalSize(entries[..i + 1]) == TotalSize(entries[..i]) + SizeOf(entries[i])
  {
    assert entries[..i + 1][..i] == entries[..i];
  }

  lemma {:induction false} TotalGrows(entries: seq<Entry>, i: nat)
    requires i <= |entries|
    ensures TotalSize(entries[..i]) <= TotalSize(entries)
    decreases |entries| - i
  {
    if i == |entries| {
      assert entries[..i] == entries;
    } else {
      TotalOneMore(entries, i);
      TotalGrows(entries, i + 1);
    }
  }

  /** A link whose target stays inside by its text. */
  predicate LinkIsInside(e: Entry) {
    e.Symlink? && IsRelative(e.target) && NeverAbove(|e.parent|, e.target)
  }

  /** `extract_zip_reader`. An unsafe name, an I/O error or a stop may end it at any entry. */
  method Extract(entries: seq<Entry>, limits: Limits) returns (r: Result, onDisk: nat, links: seq<Entry>)
    requires limits.maxTotalBytes <= U64_MAX
    requires forall e | e in entries :: SizeOf(e) <= U64_MAX
    // Whatever the archive claims, no more than one byte beyond the limit is ever written.
    ensures onDisk <= limits.maxTotalBytes + 1
    ensures r.TooManyEntries? <==> |entries| > limits.maxEntries
    ensures r.Extracted? ==> TotalSize(entries) <= limits.maxTotalBytes && onDisk == TotalSize(entries)
    ensures r.TooLarge? ==> TotalSize(entries) > limits.maxTotalBytes
    // Only links that stay inside the workspace by their text are created.
    ensures forall l | l in links :: l in entries && LinkIsInside(l)
    ensures r.Extracted? ==>
              forall e | e in entries && LinkIsInside(e) :: e in links
  {
    onDisk, links := 0, [];
    if |entries| > limits.maxEntries {
      return TooManyEntries, onDisk, links;
    }
    var total := 0;
    for i := 0 to |entries|
      invariant total == onDisk == TotalSize(entries[..i]) <= limits.maxTotalBytes
      invariant forall l | l in links :: l in entries && LinkIsInside(l)
      invariant forall e | e in entries[..i] && LinkIsInside(e) :: e in links
    {
      TotalOneMore(entries, i);
      if * {
        return OtherError, onDisk, links;
      }
      match entries[i]
      case Directory =>
      case Symlink(parent, target) =>
        var inside := SymlinkStaysInside(parent, target);
        if inside {
          links := links + [entries[i]];
        }
      case File(size) =>
        var remaining := limits.maxTotalBytes - total;
        // `take` ends the copy one byte behind the budget.
        var written := Min(size, Min(remaining + 1, U64_MAX));
        onDisk := onDisk + written;
        if written > remaining {
          TotalGrows(entries, i + 1);
          return TooLarge, onDisk, links;
        }
        total := total + written;
    }
    assert entries[..|entries|] == entries;
    r := Extracted;
  }
}
