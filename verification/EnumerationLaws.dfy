/**
  How the identity of a directory depends on the order in which it is read.

  Reading a directory again may list the entries of every directory in another order.
  The files of one directory always come before everything in its subdirectories, and each
  subdirectory is recorded as one block; so what reordering can do is exchange the blocks
  of subdirectories.  It changes nothing exactly when, path by path, these blocks commute.
 */
module EnumerationLaws {
  import opened Basics
  import opened ContentTree
  import opened Ordering

  // ---- Reading the same directory again ----

  datatype Entry = FileEntry(bytes: string) | DirEntry(inner: Listing)

  function Find(l: Listing, name: string): Option<Entry> {
    match l
    case End => None
    case FileThen(n, bytes, rest) => if n == name then Some(FileEntry(bytes)) else Find(rest, name)
    case DirThen(n, inner, rest) => if n == name then Some(DirEntry(inner)) else Find(rest, name)
  }

  /** The listing without its first entry of this name. */
  function Without(l: Listing, name: string): Listing {
    match l
    case End => End
    case FileThen(n, bytes, rest) => if n == name then rest else FileThen(n, bytes, Without(rest, name))
    case DirThen(n, inner, rest) => if n == name then rest else DirThen(n, inner, Without(rest, name))
  }

  /** `b` lists what `a` lists, at every level in some order. */
  predicate SameTree(a: Listing, b: Listing) {
    match a
    case End => b == End
    case FileThen(name, bytes, rest) =>
      Find(b, name) == Some(FileEntry(bytes)) && SameTree(rest, Without(b, name))
    case DirThen(name, inner, rest) =>
      && Find(b, name).Some? && Find(b, name).value.DirEntry?
      && SameTree(inner, Find(b, name).value.inner) && SameTree(rest, Without(b, name))
  }

  /** Names are distinct in every directory, and hold no slash. */
  predicate WellNamed(l: Listing) {
    match l
    case End => true
    case FileThen(name, _, rest) => '/' !in name && Find(rest, name).None? && WellNamed(rest)
    case DirThen(name, inner, rest) =>
      '/' !in name && Find(rest, name).None? && WellNamed(inner) && WellNamed(rest)
  }

  lemma {:induction false} SameTreeReflexive(l: Listing)
    ensures SameTree(l, l)
  {
    match l
    case End =>
    case FileThen(_, _, rest) => SameTreeReflexive(rest);
    case DirThen(_, inner, rest) =>
      SameTreeReflexive(inner);
      SameTreeReflexive(rest);
  }

  // ---- Blocks ----

  /** The records with path `k`. */
  function At(files: seq<FileIdentity>, k: string): seq<FileIdentity> {
    Keyed(files, PathOf, k)
  }

  /** What a subdirectory records at path `k`. */
  function Block(prefix: string, name: string, inner: Listing, k: string, sha256: string -> string): seq<FileIdentity> {
    At(Walk(Inside(prefix, name), inner, sha256), k)
  }

  lemma AtConcat(a: seq<FileIdentity>, b: seq<FileIdentity>, k: string)
    ensures At(a + b, k) == At(a, k) + At(b, k)
  {
    KeyedConcat(a, b, PathOf, k);
  }

  /** How one more entry shows in the walk. */
  lemma WalkStep(prefix: string, l: Listing, k: string, sha256: string -> string)
    ensures At(Walk(prefix, l, sha256), k) == At(Files(prefix, l, sha256), k) + At(Subs(prefix, l, sha256), k)
    ensures l.FileThen? ==>
              && At(Files(prefix, l, sha256), k)
                   == At([FileRecord(prefix, l.name, l.bytes, sha256)], k) + At(Files(prefix, l.rest, sha256), k)
              && At(Subs(prefix, l, sha256), k) == At(Subs(prefix, l.rest, sha256), k)
    ensures l.DirThen? ==>
              && At(Files(prefix, l, sha256), k) == At(Files(prefix, l.rest, sha256), k)
              && At(Subs(prefix, l, sha256), k)
                   == At(Subs(prefix, l.rest, sha256), k) + Block(prefix, l.name, l.inner, k, sha256)
  {
    hide At;
    AtConcat(Files(prefix, l, sha256), Subs(prefix, l, sha256), k);
    match l
    case End =>
    case FileThen(name, bytes, rest) =>
      AtConcat([FileRecord(prefix, name, bytes, sha256)], Files(prefix, rest, sha256), k);
    case DirThen(name, inner, rest) =>
      AtConcat(Subs(prefix, rest, sha256), Walk(Inside(prefix, name), inner, sha256), k);
  }

  predicate Commute(u: seq<FileIdentity>, v: seq<FileIdentity>) {
    u + v == v + u
  }

  /** The block commutes with the block of every subdirectory of `l`. */
  predicate CommutesWithAll(u: seq<FileIdentity>, prefix: string, l: Listing, k: string, sha256: string -> string) {
    match l
    case End => true
    case FileThen(_, _, rest) => CommutesWithAll(u, prefix, rest, k, sha256)
    case DirThen(name, inner, rest) =>
      Commute(u, Block(prefix, name, inner, k, sha256)) && CommutesWithAll(u, prefix, rest, k, sha256)
  }

  /** In every directory and at every path, the blocks of any two subdirectories commute. */
  ghost predicate Steady(prefix: string, l: Listing, sha256: string -> string)
    decreases l
  {
    match l
    case End => true
    case FileThen(_, _, rest) => Steady(prefix, rest, sha256)
    case DirThen(name, inner, rest) =>
      && Steady(Inside(prefix, name), inner, sha256) && Steady(prefix, rest, sha256)
      && forall k :: CommutesWithAll(Block(prefix, name, inner, k, sha256), prefix, rest, k, sha256)
  }

  lemma CommuteConcat(u: seq<FileIdentity>, v: seq<FileIdentity>, w: seq<FileIdentity>)
    requires Commute(u, v) && Commute(u, w)
    ensures Commute(u, v + w)
  {
    calc {
      u + (v + w);
      (u + v) + w;
      (v + u) + w;
      v + (u + w);
      v + (w + u);
      (v + w) + u;
    }
  }

  lemma {:induction false} CommutesWithSubs(u: seq<FileIdentity>, prefix: string, l: Listing, k: string,
                                            sha256: string -> string)
    requires CommutesWithAll(u, prefix, l, k, sha256)
    ensures Commute(u, At(Subs(prefix, l, sha256), k))
  {
    hide Block, At;
    match l
    case End =>
      assert u + [] == u == [] + u;
      assert At([], k) == [] by { AtEmpty(k); }
    case FileThen(_, _, rest) =>
      CommutesWithSubs(u, prefix, rest, k, sha256);
    case DirThen(name, inner, rest) =>
      CommutesWithSubs(u, prefix, rest, k, sha256);
      WalkStep(prefix, l, k, sha256);
      CommuteConcat(u, At(Subs(prefix, rest, sha256), k), Block(prefix, name, inner, k, sha256));
  }

  lemma AtEmpty(k: string)
    ensures At([], k) == []
  {
  }

  // ---- Taking one entry out ----

  /** A subdirectory can be moved past the others that its block commutes with. */
  lemma {:induction false} SubsWithout(prefix: string, l: Listing, name: string, k: string, sha256: string -> string)
    requires Find(l, name).Some? && Find(l, name).value.DirEntry?
    requires CommutesWithAll(Block(prefix, name, Find(l, name).value.inner, k, sha256), prefix, Without(l, name), k,
                             sha256)
    ensures At(Subs(prefix, l, sha256), k)
         == At(Subs(prefix, Without(l, name), sha256), k) + Block(prefix, name, Find(l, name).value.inner, k, sha256)
  {
    hide Block, At;
    WalkStep(prefix, l, k, sha256);
    WalkStep(prefix, Without(l, name), k, sha256);
    match l
    case FileThen(_, _, rest) =>
      SubsWithout(prefix, rest, name, k, sha256);
    case DirThen(n, inner, rest) =>
      if n != name {
        SubsWithout(prefix, rest, name, k, sha256);
        var u, v := Block(prefix, name, Find(l, name).value.inner, k, sha256), Block(prefix, n, inner, k, sha256);
        var others := At(Subs(prefix, Without(rest, name), sha256), k);
        assert Commute(u, v);
        assert (others + u) + v == others + (u + v) == others + (v + u) == (others + v) + u;
      }
  }

  lemma {:induction false} SubsWithoutFile(prefix: string, l: Listing, name: string, sha256: string -> string)
    requires Find(l, name).Some? && Find(l, name).value.FileEntry?
    ensures Subs(prefix, l, sha256) == Subs(prefix, Without(l, name), sha256)
  {
    match l
    case FileThen(n, _, rest) =>
      if n != name { SubsWithoutFile(prefix, rest, name, sha256); }
    case DirThen(n, _, rest) =>
      SubsWithoutFile(prefix, rest, name, sha256);
  }

  lemma {:induction false} FilesWithoutDir(prefix: string, l: Listing, name: string, sha256: string -> string)
    requires Find(l, name).Some? && Find(l, name).value.DirEntry?
    ensures Files(prefix, l, sha256) == Files(prefix, Without(l, name), sha256)
  {
    match l
    case FileThen(_, _, rest) =>
      FilesWithoutDir(prefix, rest, name, sha256);
    case DirThen(n, _, rest) =>
      if n != name { FilesWithoutDir(prefix, rest, name, sha256); }
  }

  // ---- The files of one directory have different paths ----

  lemma SlashedInjective(prefix: string, a: string, b: string)
    requires '/' !in a && '/' !in b && Slashed(prefix + a) == Slashed(prefix + b)
    ensures a == b
  {
    hide Slashed;
    var x, y := prefix + a, prefix + b;
    assert |x| == |y|;
    forall i | 0 <= i < |a|
      ensures a[i] == b[i]
    {
      assert x[|prefix| + i] == a[i] && y[|prefix| + i] == b[i];
      assert a[i] in a && b[i] in b;
    }
  }

  /** No file of `l` is recorded under the path of another name. */
  lemma {:induction false} OtherPaths(prefix: string, l: Listing, name: string, sha256: string -> string)
    requires WellNamed(l) && '/' !in name && Find(l, name).None?
    ensures At(Files(prefix, l, sha256), Slashed(prefix + name)) == []
  {
    hide Slashed, At;
    WalkStep(prefix, l, Slashed(prefix + name), sha256);
    AtEmpty(Slashed(prefix + name));
    match l
    case End =>
    case FileThen(n, bytes, rest) =>
      OtherPaths(prefix, rest, name, sha256);
      if Slashed(prefix + n) == Slashed(prefix + name) {
        SlashedInjective(prefix, n, name);
      }
      AtOne(FileRecord(prefix, n, bytes, sha256), Slashed(prefix + name));
    case DirThen(_, _, rest) =>
      OtherPaths(prefix, rest, name, sha256);
  }

  lemma AtOne(f: FileIdentity, k: string)
    ensures At([f], k) == if f.path == k then [f] else []
  {
    KeyedOne(f, PathOf, k);
  }

  lemma {:induction false} WithoutNamed(l: Listing, name: string)
    requires WellNamed(l)
    ensures WellNamed(Without(l, name))
    ensures Find(Without(l, name), name).None?
    ensures forall other :: other != name ==> Find(Without(l, name), other) == Find(l, other)
    ensures Find(l, name).Some? ==> '/' !in name
    ensures Find(l, name).Some? && Find(l, name).value.DirEntry? ==> WellNamed(Find(l, name).value.inner)
  {
    match l
    case End =>
    case FileThen(n, _, rest) => WithoutNamed(rest, name);
    case DirThen(n, _, rest) => WithoutNamed(rest, name);
  }

  /** Taking out a file takes its record out of its path and changes no other. */
  lemma {:induction false} FilesWithout(prefix: string, l: Listing, name: string, k: string, sha256: string -> string)
    requires WellNamed(l) && Find(l, name).Some? && Find(l, name).value.FileEntry?
    ensures var f := FileRecord(prefix, name, Find(l, name).value.bytes, sha256);
            At(Files(prefix, l, sha256), k)
              == if k == f.path then [f] else At(Files(prefix, Without(l, name), sha256), k)
  {
    hide At, Slashed;
    WalkStep(prefix, l, k, sha256);
    WalkStep(prefix, Without(l, name), k, sha256);
    match l
    case FileThen(n, bytes, rest) =>
      var g := FileRecord(prefix, n, bytes, sha256);
      AtOne(g, k);
      if n == name {
        if k == g.path {
          OtherPaths(prefix, rest, name, sha256);
        }
      } else {
        WithoutNamed(l, name);
        FilesWithout(prefix, rest, name, k, sha256);
        if g.path == k == Slashed(prefix + name) {
          SlashedInjective(prefix, n, name);
        }
      }
    case DirThen(_, _, rest) =>
      FilesWithout(prefix, rest, name, k, sha256);
  }

  /** Whatever the order, the files of one directory give each path the same record. */
  lemma {:induction false} FilesAgree(prefix: string, a: Listing, b: Listing, k: string, sha256: string -> string)
    requires WellNamed(a) && WellNamed(b) && SameTree(a, b)
    ensures At(Files(prefix, a, sha256), k) == At(Files(prefix, b, sha256), k)
  {
    hide At, Slashed;
    WalkStep(prefix, a, k, sha256);
    match a
    case End =>
    case FileThen(name, bytes, rest) =>
      WithoutNamed(b, name);
      FilesAgree(prefix, rest, Without(b, name), k, sha256);
      FilesWithout(prefix, a, name, k, sha256);
      FilesWithout(prefix, b, name, k, sha256);
    case DirThen(name, inner, rest) =>
      WithoutNamed(b, name);
      FilesAgree(prefix, rest, Without(b, name), k, sha256);
      FilesWithoutDir(prefix, b, name, sha256);
  }

  // ---- Steady directories are read the same in every order ----

  /** Reordering does not change which blocks there are. */
  lemma {:induction false} CommutesMoves(u: seq<FileIdentity>, prefix: string, a: Listing, b: Listing, k: string,
                                         sha256: string -> string)
    requires WellNamed(a) && WellNamed(b) && SameTree(a, b) && Steady(prefix, a, sha256)
    requires CommutesWithAll(u, prefix, a, k, sha256)
    ensures CommutesWithAll(u, prefix, b, k, sha256)
    decreases a, 0
  {
    hide Block, Commute;
    match a
    case End =>
    case FileThen(name, _, rest) =>
      WithoutNamed(b, name);
      CommutesMoves(u, prefix, rest, Without(b, name), k, sha256);
      CommutesRestored(u, prefix, b, name, k, sha256);
    case DirThen(name, inner, rest) =>
      WithoutNamed(b, name);
      CommutesMoves(u, prefix, rest, Without(b, name), k, sha256);
      BlocksAgree(prefix, name, inner, Find(b, name).value.inner, k, sha256);
      CommutesRestored(u, prefix, b, name, k, sha256);
  }

  lemma {:induction false} CommutesRestored(u: seq<FileIdentity>, prefix: string, l: Listing, name: string, k: string,
                                            sha256: string -> string)
    requires Find(l, name).Some? && CommutesWithAll(u, prefix, Without(l, name), k, sha256)
    requires Find(l, name).value.DirEntry? ==>
               Commute(u, Block(prefix, name, Find(l, name).value.inner, k, sha256))
    ensures CommutesWithAll(u, prefix, l, k, sha256)
  {
    hide Block, Commute;
    match l
    case FileThen(n, _, rest) =>
      if n != name { CommutesRestored(u, prefix, rest, name, k, sha256); }
    case DirThen(n, _, rest) =>
      if n != name { CommutesRestored(u, prefix, rest, name, k, sha256); }
  }

  lemma {:induction false} BlocksAgree(prefix: string, name: string, a: Listing, b: Listing, k: string,
                                       sha256: string -> string)
    requires WellNamed(a) && WellNamed(b) && SameTree(a, b) && Steady(Inside(prefix, name), a, sha256)
    ensures Block(prefix, name, a, k, sha256) == Block(prefix, name, b, k, sha256)
    decreases a, 2
  {
    hide At, Walk;
    WalksAgree(Inside(prefix, name), a, b, k, sha256);
  }

  lemma {:induction false} WalksAgree(prefix: string, a: Listing, b: Listing, k: string, sha256: string -> string)
    requires WellNamed(a) && WellNamed(b) && SameTree(a, b) && Steady(prefix, a, sha256)
    ensures At(Walk(prefix, a, sha256), k) == At(Walk(prefix, b, sha256), k)
    decreases a, 1
  {
    hide At, Walk, Files, Subs;
    WalkStep(prefix, a, k, sha256);
    WalkStep(prefix, b, k, sha256);
    FilesAgree(prefix, a, b, k, sha256);
    SubsAgree(prefix, a, b, k, sha256);
  }

  lemma {:induction false} SubsAgree(prefix: string, a: Listing, b: Listing, k: string, sha256: string -> string)
    requires WellNamed(a) && WellNamed(b) && SameTree(a, b) && Steady(prefix, a, sha256)
    ensures At(Subs(prefix, a, sha256), k) == At(Subs(prefix, b, sha256), k)
    decreases a, 0
  {
    hide At, Block, Commute, Walk;
    WalkStep(prefix, a, k, sha256);
    match a
    case End =>
    case FileThen(name, _, rest) =>
      WithoutNamed(b, name);
      SubsAgree(prefix, rest, Without(b, name), k, sha256);
      SubsWithoutFile(prefix, b, name, sha256);
    case DirThen(name, inner, rest) =>
      var others, moved := Without(b, name), Find(b, name).value.inner;
      WithoutNamed(b, name);
      SubsAgree(prefix, rest, others, k, sha256);
      BlocksAgree(prefix, name, inner, moved, k, sha256);
      CommutesMoves(Block(prefix, name, inner, k, sha256), prefix, rest, others, k, sha256);
      SubsWithout(prefix, b, name, k, sha256);
  }

  // ---- Unsteady directories show the order ----

  /** A subdirectory of `l` whose block does not commute with `u`. */
  lemma {:induction false} Blocker(u: seq<FileIdentity>, prefix: string, l: Listing, k: string,
                                   sha256: string -> string)
    returns (name: string)
    requires WellNamed(l) && !CommutesWithAll(u, prefix, l, k, sha256)
    ensures Find(l, name).Some? && Find(l, name).value.DirEntry?
    ensures !Commute(u, Block(prefix, name, Find(l, name).value.inner, k, sha256))
    decreases l
  {
    hide Block, Commute;
    match l
    case FileThen(n, _, rest) =>
      name := Blocker(u, prefix, rest, k, sha256);
    case DirThen(n, inner, rest) =>
      if !Commute(u, Block(prefix, n, inner, k, sha256)) {
        name := n;
      } else {
        name := Blocker(u, prefix, rest, k, sha256);
      }
  }

  /** Reading a subdirectory first is another reading of the same directory. */
  lemma {:induction false} FrontSame(l: Listing, name: string)
    requires WellNamed(l) && Find(l, name).Some? && Find(l, name).value.DirEntry?
    ensures SameTree(l, DirThen(name, Find(l, name).value.inner, Without(l, name)))
  {
    match l
    case FileThen(_, _, rest) =>
      FrontSame(rest, name);
    case DirThen(n, inner, rest) =>
      SameTreeReflexive(inner);
      if n == name {
        SameTreeReflexive(rest);
      } else {
        FrontSame(rest, name);
      }
  }

  /** Two readings of one directory, with the two subdirectories in either order. */
  lemma TwoOrders(first: string, inner: Listing, rest: Listing, second: string, other: Listing)
    requires WellNamed(DirThen(first, inner, rest)) && Find(rest, second) == Some(DirEntry(other))
    ensures var x := DirThen(first, inner, DirThen(second, other, Without(rest, second)));
            var y := DirThen(second, other, DirThen(first, inner, Without(rest, second)));
            && WellNamed(x) && WellNamed(y)
            && SameTree(DirThen(first, inner, rest), x) && SameTree(DirThen(first, inner, rest), y)
  {
    WithoutNamed(rest, second);
    SameTreeReflexive(inner);
    FrontSame(rest, second);
  }

  lemma TwoOrdersWalk(prefix: string, first: string, inner: Listing, second: string, other: Listing, rest: Listing,
                      k: string, sha256: string -> string)
    ensures var x := DirThen(first, inner, DirThen(second, other, rest));
            var before := At(Files(prefix, rest, sha256), k) + At(Subs(prefix, rest, sha256), k);
            At(Walk(prefix, x, sha256), k)
              == before + (Block(prefix, second, other, k, sha256) + Block(prefix, first, inner, k, sha256))
  {
    hide At, Block, Walk;
    var x := DirThen(first, inner, DirThen(second, other, rest));
    WalkStep(prefix, x, k, sha256);
    WalkStep(prefix, x.rest, k, sha256);
    var f, s := At(Files(prefix, rest, sha256), k), At(Subs(prefix, rest, sha256), k);
    var u, v := Block(prefix, first, inner, k, sha256), Block(prefix, second, other, k, sha256);
    assert f + ((s + v) + u) == (f + s) + (v + u);
  }

  /** A directory that is not steady has two readings that record some path differently. */
  lemma {:induction false} UnsteadyShows(prefix: string, l: Listing, sha256: string -> string)
    returns (x: Listing, y: Listing, k: string)
    requires WellNamed(l) && !Steady(prefix, l, sha256)
    ensures WellNamed(x) && WellNamed(y) && SameTree(l, x) && SameTree(l, y)
    ensures At(Walk(prefix, x, sha256), k) != At(Walk(prefix, y, sha256), k)
    decreases l
  {
    hide At, Block, Walk, Commute;
    match l
    case FileThen(name, bytes, rest) =>
      x, y, k := UnsteadyShows(prefix, rest, sha256);
      FileBefore(prefix, name, bytes, x, k, sha256);
      FileBefore(prefix, name, bytes, y, k, sha256);
      NamesKept(rest, x, name);
      NamesKept(rest, y, name);
      PartsDiffer(At([FileRecord(prefix, name, bytes, sha256)], k), At(Walk(prefix, x, sha256), k),
                   At(Walk(prefix, y, sha256), k));
      x, y := FileThen(name, bytes, x), FileThen(name, bytes, y);
    case DirThen(name, inner, rest) =>
      if !Steady(Inside(prefix, name), inner, sha256) {
        x, y, k := UnsteadyShows(Inside(prefix, name), inner, sha256);
        DirBefore(prefix, name, x, rest, k, sha256);
        DirBefore(prefix, name, y, rest, k, sha256);
        SameTreeReflexive(rest);
        BlockIsWalk(prefix, name, x, k, sha256);
        BlockIsWalk(prefix, name, y, k, sha256);
        PartsDiffer(At(Walk(prefix, rest, sha256), k), Block(prefix, name, x, k, sha256),
                     Block(prefix, name, y, k, sha256));
        x, y := DirThen(name, x, rest), DirThen(name, y, rest);
      } else if !Steady(prefix, rest, sha256) {
        x, y, k := UnsteadyShows(prefix, rest, sha256);
        DirBefore(prefix, name, inner, x, k, sha256);
        DirBefore(prefix, name, inner, y, k, sha256);
        NamesKept(rest, x, name);
        NamesKept(rest, y, name);
        SameTreeReflexive(inner);
        PartsDiffer(Block(prefix, name, inner, k, sha256), At(Walk(prefix, x, sha256), k),
                    At(Walk(prefix, y, sha256), k));
        x, y := DirThen(name, inner, x), DirThen(name, inner, y);
      } else {
        k :| !CommutesWithAll(Block(prefix, name, inner, k, sha256), prefix, rest, k, sha256);
        x, y := BlockedShows(prefix, name, inner, rest, k, sha256);
      }
  }

  lemma BlockIsWalk(prefix: string, name: string, inner: Listing, k: string, sha256: string -> string)
    ensures Block(prefix, name, inner, k, sha256) == At(Walk(Inside(prefix, name), inner, sha256), k)
  {
  }

  lemma PartsDiffer(around: seq<FileIdentity>, a: seq<FileIdentity>, b: seq<FileIdentity>)
    requires a != b
    ensures around + a != around + b
    ensures a + around != b + around
  {
    assert (around + a)[|around|..] == a && (around + b)[|around|..] == b;
    if |a| == |b| {
      assert (a + around)[..|a|] == a && (b + around)[..|b|] == b;
    }
  }

  lemma BlockedShows(prefix: string, name: string, inner: Listing, rest: Listing, k: string, sha256: string -> string)
    returns (x: Listing, y: Listing)
    requires WellNamed(DirThen(name, inner, rest))
    requires !CommutesWithAll(Block(prefix, name, inner, k, sha256), prefix, rest, k, sha256)
    ensures WellNamed(x) && WellNamed(y)
    ensures SameTree(DirThen(name, inner, rest), x) && SameTree(DirThen(name, inner, rest), y)
    ensures At(Walk(prefix, x, sha256), k) != At(Walk(prefix, y, sha256), k)
  {
    hide At, Block, Walk;
    var u := Block(prefix, name, inner, k, sha256);
    var second := Blocker(u, prefix, rest, k, sha256);
    var other, remaining := Find(rest, second).value.inner, Without(rest, second);
    var v := Block(prefix, second, other, k, sha256);
    TwoOrders(name, inner, rest, second, other);
    x := DirThen(name, inner, DirThen(second, other, remaining));
    y := DirThen(second, other, DirThen(name, inner, remaining));
    TwoOrdersWalk(prefix, name, inner, second, other, remaining, k, sha256);
    TwoOrdersWalk(prefix, second, other, name, inner, remaining, k, sha256);
    var before := At(Files(prefix, remaining, sha256), k) + At(Subs(prefix, remaining, sha256), k);
    PartsDiffer(before, v + u, u + v);
  }

  lemma FileBefore(prefix: string, name: string, bytes: string, l: Listing, k: string, sha256: string -> string)
    ensures At(Walk(prefix, FileThen(name, bytes, l), sha256), k)
         == At([FileRecord(prefix, name, bytes, sha256)], k) + At(Walk(prefix, l, sha256), k)
  {
    hide At;
    WalkStep(prefix, FileThen(name, bytes, l), k, sha256);
    WalkStep(prefix, l, k, sha256);
  }

  lemma DirBefore(prefix: string, name: string, inner: Listing, l: Listing, k: string, sha256: string -> string)
    ensures At(Walk(prefix, DirThen(name, inner, l), sha256), k)
         == At(Walk(prefix, l, sha256), k) + Block(prefix, name, inner, k, sha256)
  {
    hide At, Block, Walk;
    WalkStep(prefix, DirThen(name, inner, l), k, sha256);
    WalkStep(prefix, l, k, sha256);
  }

  /** The same names are free in every reading. */
  lemma {:induction false} NamesKept(a: Listing, b: Listing, name: string)
    requires SameTree(a, b) && WellNamed(a) && WellNamed(b) && Find(a, name).None?
    ensures Find(b, name).None?
  {
    match a
    case End =>
    case FileThen(n, _, rest) =>
      WithoutNamed(b, n);
      NamesKept(rest, Without(b, n), name);
    case DirThen(n, _, rest) =>
      WithoutNamed(b, n);
      NamesKept(rest, Without(b, n), name);
  }

  // ---- Limits do not depend on the order ----

  lemma {:induction false} FilesCount(prefix: string, l: Listing, name: string, sha256: string -> string)
    requires Find(l, name).Some? && Find(l, name).value.FileEntry?
    ensures multiset(Files(prefix, l, sha256))
         == multiset(Files(prefix, Without(l, name), sha256))
            + multiset{FileRecord(prefix, name, Find(l, name).value.bytes, sha256)}
  {
    hide FileRecord;
    match l
    case FileThen(n, bytes, rest) =>
      Cons(FileRecord(prefix, n, bytes, sha256), Files(prefix, rest, sha256));
      if n != name {
        FilesCount(prefix, rest, name, sha256);
        Cons(FileRecord(prefix, n, bytes, sha256), Files(prefix, Without(rest, name), sha256));
      }
    case DirThen(n, _, rest) =>
      FilesCount(prefix, rest, name, sha256);
  }

  lemma Cons(f: FileIdentity, files: seq<FileIdentity>)
    ensures multiset([f] + files) == multiset{f} + multiset(files)
  {
  }

  lemma {:induction false} SubsCount(prefix: string, l: Listing, name: string, sha256: string -> string)
    requires Find(l, name).Some? && Find(l, name).value.DirEntry?
    ensures multiset(Subs(prefix, l, sha256))
         == multiset(Subs(prefix, Without(l, name), sha256))
            + multiset(Walk(Inside(prefix, name), Find(l, name).value.inner, sha256))
  {
    hide Walk;
    match l
    case FileThen(_, _, rest) =>
      SubsCount(prefix, rest, name, sha256);
    case DirThen(n, inner, rest) =>
      if n != name { SubsCount(prefix, rest, name, sha256); }
  }

  lemma {:induction false} DepthWithout(l: Listing, name: string)
    requires Find(l, name).Some?
    ensures match Find(l, name).value
            case FileEntry(_) => Depth(l) == Depth(Without(l, name))
            case DirEntry(inner) => Depth(l) == Larger(1 + Depth(inner), Depth(Without(l, name)))
  {
    match l
    case FileThen(n, _, rest) =>
      if n != name { DepthWithout(rest, name); }
    case DirThen(n, _, rest) =>
      if n != name { DepthWithout(rest, name); }
  }

  lemma {:induction false} DepthMoves(a: Listing, b: Listing)
    requires SameTree(a, b)
    ensures Depth(a) == Depth(b)
    decreases a
  {
    match a
    case End =>
    case FileThen(name, _, rest) =>
      DepthWithout(b, name);
      DepthMoves(rest, Without(b, name));
    case DirThen(name, inner, rest) =>
      DepthWithout(b, name);
      DepthMoves(rest, Without(b, name));
      DepthMoves(inner, Find(b, name).value.inner);
  }

  lemma {:induction false} FilesMove(prefix: string, a: Listing, b: Listing, sha256: string -> string)
    requires SameTree(a, b)
    ensures multiset(Files(prefix, a, sha256)) == multiset(Files(prefix, b, sha256))
    decreases a
  {
    hide FileRecord;
    match a
    case End =>
    case FileThen(name, bytes, rest) =>
      FilesMove(prefix, rest, Without(b, name), sha256);
      FilesCount(prefix, b, name, sha256);
      Cons(FileRecord(prefix, name, bytes, sha256), Files(prefix, rest, sha256));
    case DirThen(name, _, rest) =>
      FilesMove(prefix, rest, Without(b, name), sha256);
      FilesWithoutDir(prefix, b, name, sha256);
  }

  lemma {:induction false} SubsMove(prefix: string, a: Listing, b: Listing, sha256: string -> string)
    requires SameTree(a, b)
    ensures multiset(Subs(prefix, a, sha256)) == multiset(Subs(prefix, b, sha256))
    decreases a, 0
  {
    hide Walk;
    match a
    case End =>
    case FileThen(name, _, rest) =>
      SubsMove(prefix, rest, Without(b, name), sha256);
      SubsWithoutFile(prefix, b, name, sha256);
    case DirThen(name, inner, rest) =>
      SubsMove(prefix, rest, Without(b, name), sha256);
      WalkMoves(Inside(prefix, name), inner, Find(b, name).value.inner, sha256);
      SubsCount(prefix, b, name, sha256);
  }

  /** Reading again records the same files, as a multiset. */
  lemma {:induction false} WalkMoves(prefix: string, a: Listing, b: Listing, sha256: string -> string)
    requires SameTree(a, b)
    ensures multiset(Walk(prefix, a, sha256)) == multiset(Walk(prefix, b, sha256))
    decreases a, 1
  {
    hide Files, Subs;
    FilesMove(prefix, a, b, sha256);
    SubsMove(prefix, a, b, sha256);
  }

  lemma {:induction false} TotalConcat(a: seq<FileIdentity>, b: seq<FileIdentity>)
    ensures TotalLength(a + b) == TotalLength(a) + TotalLength(b)
    decreases |b|
  {
    if b == [] {
      assert a + b == a;
    } else {
      TotalConcat(a, b[..|b| - 1]);
      assert (a + b)[..|a + b| - 1] == a + b[..|b| - 1];
    }
  }

  /** The rest of `b` around the last element of its reordering `a`. */
  lemma Around(a: seq<FileIdentity>, b: seq<FileIdentity>) returns (left: seq<FileIdentity>, right: seq<FileIdentity>)
    requires multiset(a) == multiset(b) && a != []
    ensures b == left + ([a[|a| - 1]] + right)
    ensures multiset(a[..|a| - 1]) == multiset(left + right)
  {
    var init, x := a[..|a| - 1], a[|a| - 1];
    assert a == init + [x];
    assert multiset(a) == multiset(init) + multiset{x};
    assert x in multiset(b);
    var i :| 0 <= i < |b| && b[i] == x;
    left, right := b[..i], b[i + 1..];
    TakenOut(b, i);
    assert multiset(init) == multiset(a) - multiset{x};
  }

  lemma TakenOut(s: seq<FileIdentity>, i: nat)
    requires i < |s|
    ensures s == s[..i] + ([s[i]] + s[i + 1..])
    ensures multiset(s[..i] + s[i + 1..]) == multiset(s) - multiset{s[i]}
  {
    assert s == s[..i] + ([s[i]] + s[i + 1..]);
  }

  lemma {:induction false} TotalMoves(a: seq<FileIdentity>, b: seq<FileIdentity>)
    requires multiset(a) == multiset(b)
    ensures TotalLength(a) == TotalLength(b)
    decreases |a|
  {
    hide TotalLength;
    SameMembers(a, b);
    if a == [] {
      assert a == b;
    } else {
      var init, x := a[..|a| - 1], a[|a| - 1];
      var left, right := Around(a, b);
      TotalMoves(init, left + right);
      assert a == init + [x];
      TotalConcat(init, [x]);
      TotalConcat(left, [x] + right);
      TotalConcat([x], right);
      TotalConcat(left, right);
    }
  }

  lemma AcceptsMoves(a: seq<FileIdentity>, b: seq<FileIdentity>)
    requires multiset(a) == multiset(b)
    ensures Accepts(a) <==> Accepts(b)
    ensures TotalLength(a) == TotalLength(b)
  {
    hide TotalLength, Utf8Length;
    SameMembers(a, b);
    TotalMoves(a, b);
    assert forall f :: f in a <==> f in multiset(a);
    assert forall f :: f in b <==> f in multiset(b);
  }

  // ---- The exact condition ----

  /** However the directory is read, its identity is the same. */
  ghost predicate OrderFree(l: Listing, sha256: string -> string) {
    forall other | WellNamed(other) && SameTree(l, other) ::
      DirectoryIdentity(other, sha256) == DirectoryIdentity(l, sha256)
  }

  /** Two readings have the same identity exactly when they exceed a limit or record every
      path alike. */
  lemma IdentitiesCompare(a: Listing, b: Listing, sha256: string -> string)
    requires SameTree(a, b)
    ensures TreeFits(a, sha256) <==> TreeFits(b, sha256)
    ensures DirectoryIdentity(a, sha256) == DirectoryIdentity(b, sha256)
       <==> !TreeFits(a, sha256) || SameKeyed(Walk("", a, sha256), Walk("", b, sha256), PathOf)
  {
    hide Accepts, SortBy, TotalLength, Walk, SameKeyed, Keyed;
    WalkMoves("", a, b, sha256);
    DepthMoves(a, b);
    AcceptsMoves(Walk("", a, sha256), Walk("", b, sha256));
    SortFollowsKeyed(Walk("", a, sha256), Walk("", b, sha256), PathOf);
  }

  lemma SteadyIsOrderFree(l: Listing, sha256: string -> string)
    requires WellNamed(l) && Steady("", l, sha256)
    ensures OrderFree(l, sha256)
  {
    hide DirectoryIdentity, TreeFits, Walk, Steady;
    forall other | WellNamed(other) && SameTree(l, other)
      ensures DirectoryIdentity(other, sha256) == DirectoryIdentity(l, sha256)
    {
      forall k
        ensures Keyed(Walk("", l, sha256), PathOf, k) == Keyed(Walk("", other, sha256), PathOf, k)
      {
        WalksAgree("", l, other, k, sha256);
      }
      IdentitiesCompare(l, other, sha256);
    }
  }

  /** The identity of a directory within the limits is the same in every order in which
      it can be read, exactly when it is steady. */
  lemma EnumerationOrderFree(l: Listing, sha256: string -> string)
    requires WellNamed(l)
    ensures OrderFree(l, sha256) <==> Steady("", l, sha256) || !TreeFits(l, sha256)
  {
    hide DirectoryIdentity, TreeFits, Walk, Steady;
    if Steady("", l, sha256) {
      SteadyIsOrderFree(l, sha256);
    } else if !TreeFits(l, sha256) {
      forall other | WellNamed(other) && SameTree(l, other)
        ensures DirectoryIdentity(other, sha256) == DirectoryIdentity(l, sha256)
      {
        IdentitiesCompare(l, other, sha256);
      }
    } else {
      var x, y, k := UnsteadyShows("", l, sha256);
      IdentitiesCompare(l, x, sha256);
      IdentitiesCompare(l, y, sha256);
      assert Keyed(Walk("", x, sha256), PathOf, k) != Keyed(Walk("", y, sha256), PathOf, k);
    }
  }

  /** Files that get the same path, once backslashes are read as slashes, have the same
      content: then no order shows. */
  lemma DecidedIsOrderFree(l: Listing, sha256: string -> string)
    requires KeysDecide(Walk("", l, sha256), PathOf)
    ensures OrderFree(l, sha256)
  {
    hide Accepts, SortBy, TotalLength, Walk, KeysDecide;
    forall other | WellNamed(other) && SameTree(l, other)
      ensures DirectoryIdentity(other, sha256) == DirectoryIdentity(l, sha256)
    {
      WalkMoves("", l, other, sha256);
      DepthMoves(l, other);
      AcceptsMoves(Walk("", l, sha256), Walk("", other, sha256));
      SortOrderFree(Walk("", l, sha256), Walk("", other, sha256), PathOf);
    }
  }

  /** Blocks of at most one record commute exactly when one is empty or they are equal. */
  lemma SmallBlocksCommute(u: seq<FileIdentity>, v: seq<FileIdentity>)
    requires |u| <= 1 && |v| <= 1
    ensures Commute(u, v) <==> u == [] || v == [] || u == v
  {
    if |u| == 1 && |v| == 1 && Commute(u, v) {
      assert (u + v)[0] == (v + u)[0];
    }
  }

  // ---- Two directories with colliding names ----

  /** `a\b/c` and `a/b\c`, in sibling directories, get the same path. */
  function Siblings(): Listing {
    DirThen("a\\b", FileThen("c", "x", End), DirThen("a", FileThen("b\\c", "yy", End), End))
  }

  /** `a\b` and `a/b` get the same path too, but a file of the root comes first. */
  function RootAndBelow(): Listing {
    FileThen("a\\b", "x", DirThen("a", FileThen("b", "yy", End), End))
  }

  lemma OneFileWalk(prefix: string, file: string, bytes: string, sha256: string -> string)
    ensures Walk(prefix, FileThen(file, bytes, End), sha256) == [FileRecord(prefix, file, bytes, sha256)]
  {
    hide FileRecord;
    assert Files(prefix, End, sha256) == [] && Subs(prefix, End, sha256) == [];
    assert Files(prefix, FileThen(file, bytes, End), sha256) == [FileRecord(prefix, file, bytes, sha256)];
  }

  lemma OneFileBlock(name: string, file: string, bytes: string, k: string, sha256: string -> string)
    requires Slashed(name + "/" + file) == k
    ensures Block("", name, FileThen(file, bytes, End), k, sha256) == [IdentityOf(k, bytes, sha256)]
  {
    hide Slashed, Walk, At;
    assert Inside("", name) + file == name + "/" + file;
    OneFileWalk(Inside("", name), file, bytes, sha256);
    AtOne(IdentityOf(k, bytes, sha256), k);
  }

  /** The identity of the first directory depends on which sibling is read first. */
  lemma SiblingsCollide(sha256: string -> string)
    ensures WellNamed(Siblings()) && TreeFits(Siblings(), sha256)
    ensures !OrderFree(Siblings(), sha256)
  {
    hide OrderFree, TreeFits, Slashed;
    var l, k := Siblings(), "a/b/c";
    SiblingPaths();
    SiblingsFit(sha256);
    OneFileBlock("a\\b", "c", "x", k, sha256);
    OneFileBlock("a", "b\\c", "yy", k, sha256);
    var u := Block("", "a\\b", FileThen("c", "x", End), k, sha256);
    var v := Block("", "a", FileThen("b\\c", "yy", End), k, sha256);
    assert u[0].length == 1 && v[0].length == 2;
    SmallBlocksCommute(u, v);
    assert !CommutesWithAll(u, "", l.rest, k, sha256);
    EnumerationOrderFree(l, sha256);
  }

  lemma SiblingPaths()
    ensures Slashed("a\\b" + "/" + "c") == "a/b/c" == Slashed("a" + "/" + "b\\c")
    ensures WellNamed(Siblings()) && WellNamed(RootAndBelow())
  {
    hide Slashed;
    assert "a\\b" + "/" + "c" == "a\\b/c" && "a" + "/" + "b\\c" == "a/b\\c";
    assert Slashed("a\\b/c") == "a/b/c" && Slashed("a/b\\c") == "a/b/c";
    assert "a\\b" != "a" by { assert |"a\\b"| == 3 && |"a"| == 1; }
  }

  lemma SiblingsFit(sha256: string -> string)
    ensures TreeFits(Siblings(), sha256)
  {
    hide FileRecord, Accepts;
    var f := FileRecord("a\\b/", "c", "x", sha256);
    var g := FileRecord("a/", "b\\c", "yy", sha256);
    assert Inside("", "a\\b") == "a\\b/" && Inside("", "a") == "a/";
    assert Walk("", Siblings(), sha256) == [g, f];
    SmallFilesAccepted("a/", "b\\c", "yy", "a\\b/", "c", "x", sha256);
  }

  lemma SmallFilesAccepted(p: string, m: string, x: string, q: string, n: string, y: string, sha256: string -> string)
    requires |p| + |m| <= 128 && |q| + |n| <= 128 && |x| <= 2 && |y| <= 2
    ensures Accepts([FileRecord(p, m, x, sha256), FileRecord(q, n, y, sha256)])
  {
    hide Slashed, Utf8Length, TotalLength, Accepts;
    var f, g := FileRecord(p, m, x, sha256), FileRecord(q, n, y, sha256);
    ShortPath(f.path);
    ShortPath(g.path);
    NothingRecorded();
    AcceptsSnoc([], f);
    AcceptsSnoc([f], g);
    assert [] + [f] == [f] && [f] + [g] == [f, g];
  }

  /** A path of up to 128 characters is within the bound of 512 bytes. */
  lemma {:induction false} ShortPath(path: string)
    requires |path| <= 128
    ensures Utf8Length(path) <= 4 * |path| <= MAX_RELATIVE_BYTES
  {
    if path != [] {
      ShortPath(path[..|path| - 1]);
    }
  }

  /** The identity of the second directory does not, although its two files get one path
      and differ. */
  lemma RootComesFirst(sha256: string -> string)
    ensures OrderFree(RootAndBelow(), sha256)
    ensures !KeysDecide(Walk("", RootAndBelow(), sha256), PathOf)
  {
    hide OrderFree, Slashed;
    var l := RootAndBelow();
    SiblingPaths();
    assert Steady("", l, sha256);
    SteadyIsOrderFree(l, sha256);
    var f, g := FileRecord("", "a\\b", "x", sha256), FileRecord("a/", "b", "yy", sha256);
    assert Inside("", "a") == "a/";
    assert Walk("", l, sha256) == [f, g];
    SamePath(f.path, g.path);
    assert PathOf([f, g][0]) == PathOf([f, g][1]) && f.length == 1 && g.length == 2;
  }

  lemma SamePath(a: string, b: string)
    requires |a| == |b| == 3 && a[0] == b[0] && a[1] == b[1] && a[2] == b[2]
    ensures a == b
  {
  }
}
