/**
  What a frozen content digest says about bytes: where it loads, the corpus and the body of every case hold what they
  held when it was frozen, unless two contents collide under the digest.
 */
module ContentLaws {
  import opened Basics
  import opened ContentDigest
  import opened ContentTree
  import opened Ordering

  /** The entry has a file that is recorded as `path` and holds these bytes. */
  predicate Holds(entry: Entry, path: string, bytes: string) {
    match entry
    case RegularFile(name, content) => name == path && content == bytes
    case Folder(listing) => HoldsUnder("", listing, path, bytes)
  }

  /** Different contents with one digest. */
  predicate Collide(a: string, b: string, sha256: string -> string) {
    a != b && sha256(a) == sha256(b)
  }

  predicate Matches(a: string, b: string, sha256: string -> string) {
    a == b || (|a| == |b| && Collide(a, b, sha256))
  }

  /** Whatever file `x` has, `y` has under the same path with the same bytes, or with bytes
      that collide. */
  ghost predicate Covers(x: Entry, y: Entry, sha256: string -> string) {
    forall path, bytes :: Holds(x, path, bytes) ==>
      exists other :: Holds(y, path, other) && Matches(bytes, other, sha256)
  }

  ghost predicate SameContent(x: Entry, y: Entry, sha256: string -> string) {
    && Covers(x, y, sha256) && Covers(y, x, sha256)
    && (x.RegularFile? && y.RegularFile? ==> x.name == y.name && Matches(x.bytes, y.bytes, sha256))
  }

  /** What the validator of a corpus and the file system guarantee: case ids are distinct
      and hold no slash, and neither does the name of a file. */
  ghost predicate Plain(frozen: Entry, loaded: Entry, cases: seq<Case>) {
    && (forall i, j :: 0 <= i < j < |cases| ==> cases[i].id != cases[j].id)
    && (forall c :: c in cases ==> '/' !in c.id)
    && (frozen.RegularFile? ==> '/' !in frozen.name) && (loaded.RegularFile? ==> '/' !in loaded.name)
  }

  /** The record of a file with these bytes. */
  ghost predicate Records(f: FileIdentity, path: string, bytes: string, sha256: string -> string) {
    f.path == path && f.length == |bytes| && f.sha256 == sha256(bytes)
  }

  lemma SortedMembers(files: seq<FileIdentity>, f: FileIdentity)
    ensures f in SortFiles(files) <==> f in files
  {
    SortByFacts(files, PathOf);
    SameMembers(files, SortFiles(files));
  }

  lemma RegularMembers(name: string, bytes: string, f: FileIdentity, sha256: string -> string)
    ensures f in SortFiles([IdentityOf(name, bytes, sha256)]) <==> Records(f, name, bytes, sha256)
  {
    hide SortFiles;
    SortedMembers([IdentityOf(name, bytes, sha256)], f);
  }

  lemma IdentityMembers(workspace: Workspace, path: string, f: FileIdentity, sha256: string -> string)
    requires Identity(workspace, path, sha256).Some?
    ensures f in Identity(workspace, path, sha256).value.files
       <==> exists bytes :: Holds(workspace[path], f.path, bytes) && Records(f, f.path, bytes, sha256)
  {
    hide SortFiles, WithinLimits, TreeFits, TotalLength, Walk;
    match workspace[path]
    case RegularFile(name, content) =>
      RegularMembers(name, content, f, sha256);
      assert Holds(workspace[path], name, content);
    case Folder(listing) =>
      WalkMembers("", listing, f, sha256);
      SortedMembers(Walk("", listing, sha256), f);
      assert forall bytes :: Holds(workspace[path], f.path, bytes) <==> HoldsUnder("", listing, f.path, bytes);
  }

  function BodyPath(id: string, path: string): string { "body/" + id + "/" + path }

  lemma {:induction false} PrefixedMembers(id: string, files: seq<FileIdentity>, f: FileIdentity)
    ensures f in Prefixed(id, files) <==> exists g :: g in files && f == g.(path := BodyPath(id, g.path))
    decreases |files|
  {
    if files != [] {
      var init, last := files[..|files| - 1], files[|files| - 1];
      PrefixedMembers(id, init, f);
      assert files == init + [last];
      assert forall g :: g in files <==> g in init || g == last;
    }
  }

  /** The record of a file that the body of `c` has. */
  ghost predicate OfBody(f: FileIdentity, c: Case, path: string, bytes: string, workspace: Workspace, corpus: string,
                         sha256: string -> string) {
    && c.body.Some? && ContentPath(corpus, c.body.value) in workspace
    && Holds(workspace[ContentPath(corpus, c.body.value)], path, bytes)
    && Records(f, BodyPath(c.id, path), bytes, sha256)
  }

  ghost predicate OfSomeBody(f: FileIdentity, cases: seq<Case>, workspace: Workspace, corpus: string,
                             sha256: string -> string) {
    exists c, path, bytes :: c in cases && OfBody(f, c, path, bytes, workspace, corpus, sha256)
  }

  lemma OneBody(f: FileIdentity, c: Case, workspace: Workspace, corpus: string, sha256: string -> string)
    requires c.body.Some? && Identity(workspace, ContentPath(corpus, c.body.value), sha256).Some?
    ensures f in Prefixed(c.id, Identity(workspace, ContentPath(corpus, c.body.value), sha256).value.files)
       <==> exists path, bytes :: OfBody(f, c, path, bytes, workspace, corpus, sha256)
  {
    hide Identity, ContentPath, Holds, BodyPath;
    var at := ContentPath(corpus, c.body.value);
    var files := Identity(workspace, at, sha256).value.files;
    PrefixedMembers(c.id, files, f);
    if g :| g in files && f == g.(path := BodyPath(c.id, g.path)) {
      IdentityMembers(workspace, at, g, sha256);
      var bytes :| Holds(workspace[at], g.path, bytes) && Records(g, g.path, bytes, sha256);
      assert OfBody(f, c, g.path, bytes, workspace, corpus, sha256);
    }
    if path, bytes :| OfBody(f, c, path, bytes, workspace, corpus, sha256) {
      var g := f.(path := path);
      assert Records(g, g.path, bytes, sha256);
      IdentityMembers(workspace, at, g, sha256);
    }
  }

  lemma {:induction false} BodiesMembers(tree: TreeIdentity, corpus: string, cases: seq<Case>, workspace: Workspace,
                                         f: FileIdentity, sha256: string -> string)
    requires WithBodies(tree, corpus, cases, workspace, sha256).Some?
    ensures f in WithBodies(tree, corpus, cases, workspace, sha256).value.files
       <==> f in tree.files || OfSomeBody(f, cases, workspace, corpus, sha256)
    decreases |cases|
  {
    hide Identity, OfBody, Prefixed, ContentPath;
    if cases != [] {
      var c, rest := cases[0], cases[1..];
      assert cases == [c] + rest;
      var next := tree;
      if c.body.Some? {
        OneBody(f, c, workspace, corpus, sha256);
        next := Extended(tree, c.id, Identity(workspace, ContentPath(corpus, c.body.value), sha256).value);
      } else {
        NoBody(f, c, workspace, corpus, sha256);
      }
      BodiesMembers(next, corpus, rest, workspace, f, sha256);
      BodiesSplit(f, c, rest, workspace, corpus, sha256);
    }
  }

  lemma NoBody(f: FileIdentity, c: Case, workspace: Workspace, corpus: string, sha256: string -> string)
    requires c.body.None?
    ensures !exists path, bytes :: OfBody(f, c, path, bytes, workspace, corpus, sha256)
  {
  }

  lemma BodiesSplit(f: FileIdentity, c: Case, rest: seq<Case>, workspace: Workspace, corpus: string,
                    sha256: string -> string)
    ensures OfSomeBody(f, [c] + rest, workspace, corpus, sha256)
       <==> || (exists path, bytes :: OfBody(f, c, path, bytes, workspace, corpus, sha256))
            || OfSomeBody(f, rest, workspace, corpus, sha256)
  {
    hide OfBody;
    if path, bytes :| OfBody(f, c, path, bytes, workspace, corpus, sha256) {
      assert c in [c] + rest;
    }
    if d, path, bytes :| d in rest && OfBody(f, d, path, bytes, workspace, corpus, sha256) {
      assert d in [c] + rest;
    }
  }

  /** What the frozen records of a regular corpus are. */
  lemma FrozenMembers(workspace: Workspace, corpus: string, cases: seq<Case>, f: FileIdentity, sha256: string -> string)
    requires FrozenFiles(workspace, corpus, cases, sha256).Some? && workspace[corpus].RegularFile?
    ensures f in FrozenFiles(workspace, corpus, cases, sha256).value
       <==> || Records(f, workspace[corpus].name, workspace[corpus].bytes, sha256)
            || OfSomeBody(f, cases, workspace, corpus, sha256)
  {
    hide Identity, WithBodies, Records, OfSomeBody, SortFiles;
    var tree := Identity(workspace, corpus, sha256).value;
    var whole := WithBodies(tree, corpus, cases, workspace, sha256).value;
    BodiesMembers(tree, corpus, cases, workspace, f, sha256);
    SortedMembers(whole.files, f);
    CorpusMember(workspace, corpus, f, sha256);
  }

  lemma CorpusMember(workspace: Workspace, corpus: string, f: FileIdentity, sha256: string -> string)
    requires Identity(workspace, corpus, sha256).Some? && workspace[corpus].RegularFile?
    ensures f in Identity(workspace, corpus, sha256).value.files
       <==> Records(f, workspace[corpus].name, workspace[corpus].bytes, sha256)
  {
    hide Identity;
    IdentityMembers(workspace, corpus, f, sha256);
  }

  lemma BodyPathParts(id: string, path: string)
    ensures var x := BodyPath(id, path);
            && |x| == 6 + |id| + |path| && x[5..5 + |id|] == id && x[6 + |id|..] == path
            && x[5 + |id|] == '/' && forall i :: 0 <= i < |id| ==> x[5 + i] == id[i]
  {
  }

  /** Different cases never record a body under the same path. */
  lemma BodyPathsApart(a: string, p: string, b: string, q: string)
    requires '/' !in a && '/' !in b && BodyPath(a, p) == BodyPath(b, q)
    ensures a == b && p == q
  {
    hide BodyPath;
    BodyPathParts(a, p);
    BodyPathParts(b, q);
    assert forall i :: 0 <= i < |a| ==> a[i] != '/';
    assert forall i :: 0 <= i < |b| ==> b[i] != '/';
    assert |a| == |b|;
  }

  lemma BodyPathSlashed(id: string, path: string)
    ensures '/' in BodyPath(id, path)
  {
    assert BodyPath(id, path)[4] == '/';
  }

  /** Where the records agree, so does the content of every body. */
  lemma BodyCovered(x: Workspace, y: Workspace, corpus: string, cases: seq<Case>, c: Case, sha256: string -> string)
    requires FrozenFiles(x, corpus, cases, sha256).Some? && x[corpus].RegularFile?
    requires FrozenFiles(y, corpus, cases, sha256).Some? && y[corpus].RegularFile?
    requires FrozenFiles(x, corpus, cases, sha256) == FrozenFiles(y, corpus, cases, sha256)
    requires Plain(x[corpus], y[corpus], cases) && c in cases && c.body.Some?
    requires ContentPath(corpus, c.body.value) in x && ContentPath(corpus, c.body.value) in y
    ensures Covers(x[ContentPath(corpus, c.body.value)], y[ContentPath(corpus, c.body.value)], sha256)
  {
    hide FrozenFiles, ContentPath, Holds, BodyPath;
    var at := ContentPath(corpus, c.body.value);
    forall path, bytes | Holds(x[at], path, bytes)
      ensures exists other :: Holds(y[at], path, other) && Matches(bytes, other, sha256)
    {
      var f := FileIdentity(BodyPath(c.id, path), |bytes|, sha256(bytes));
      assert OfBody(f, c, path, bytes, x, corpus, sha256);
      FrozenMembers(x, corpus, cases, f, sha256);
      FrozenMembers(y, corpus, cases, f, sha256);
      BodyPathSlashed(c.id, path);
      var d, q, other :| d in cases && OfBody(f, d, q, other, y, corpus, sha256);
      BodyPathsApart(c.id, path, d.id, q);
      assert d == c;
      assert Holds(y[at], path, other) && Matches(bytes, other, sha256);
    }
  }

  lemma CorpusMatches(x: Workspace, y: Workspace, corpus: string, cases: seq<Case>, sha256: string -> string)
    requires FrozenFiles(x, corpus, cases, sha256).Some? && x[corpus].RegularFile?
    requires FrozenFiles(y, corpus, cases, sha256).Some? && y[corpus].RegularFile?
    requires FrozenFiles(x, corpus, cases, sha256) == FrozenFiles(y, corpus, cases, sha256)
    requires Plain(x[corpus], y[corpus], cases)
    ensures x[corpus].name == y[corpus].name && Matches(x[corpus].bytes, y[corpus].bytes, sha256)
  {
    hide FrozenFiles, BodyPath;
    var f := FileIdentity(x[corpus].name, |x[corpus].bytes|, sha256(x[corpus].bytes));
    FrozenMembers(x, corpus, cases, f, sha256);
    FrozenMembers(y, corpus, cases, f, sha256);
    if OfSomeBody(f, cases, y, corpus, sha256) {
      var d, q, other :| d in cases && OfBody(f, d, q, other, y, corpus, sha256);
      BodyPathSlashed(d.id, q);
      assert false;
    }
  }

  lemma {:induction false} BodiesExist(tree: TreeIdentity, corpus: string, cases: seq<Case>, workspace: Workspace,
                                       sha256: string -> string, c: Case)
    requires WithBodies(tree, corpus, cases, workspace, sha256).Some? && c in cases && c.body.Some?
    ensures ContentPath(corpus, c.body.value) in workspace
    decreases |cases|
  {
    hide Identity, ContentPath, Prefixed;
    if c != cases[0] {
      assert c in cases[1..];
      var next := tree;
      if cases[0].body.Some? {
        next := Extended(tree, cases[0].id,
                         Identity(workspace, ContentPath(corpus, cases[0].body.value), sha256).value);
      }
      BodiesExist(next, corpus, cases[1..], workspace, sha256, c);
    }
  }

  lemma SameRegular(x: Entry, y: Entry, sha256: string -> string)
    requires Covers(x, y, sha256) && Covers(y, x, sha256)
    ensures SameContent(x, y, sha256)
  {
    if x.RegularFile? {
      assert Holds(x, x.name, x.bytes);
    }
  }

  /** A digest frozen over one state of the workspace loads over another only if the corpus
      holds the same bytes and so does the body of every case, unless two of these contents
      collide under the digest or the two record lists do. */
  lemma LoadedBytesWereFrozen(frozen: Workspace, loaded: Workspace, corpus: string, cases: seq<Case>,
                              sha256: string -> string)
    requires DigestText(sha256) && FrozenFiles(frozen, corpus, cases, sha256).Some? && frozen[corpus].RegularFile?
    requires Loads(loaded, corpus, cases, FrozenDigest(frozen, corpus, cases, sha256).value, sha256)
    requires Plain(frozen[corpus], loaded[corpus], cases)
    requires ZeroFree(FrozenFiles(frozen, corpus, cases, sha256).value)
    requires ZeroFree(FrozenFiles(loaded, corpus, cases, sha256).value)
    ensures || Collide(Framing(FrozenFiles(frozen, corpus, cases, sha256).value),
                       Framing(FrozenFiles(loaded, corpus, cases, sha256).value), sha256)
            || (&& Matches(frozen[corpus].bytes, loaded[corpus].bytes, sha256)
                && forall c | c in cases && c.body.Some? ::
                     var path := ContentPath(corpus, c.body.value);
                     path in frozen && path in loaded && SameContent(frozen[path], loaded[path], sha256))
  {
    hide FrozenFiles, Loads, Framing, DigestText, ContentPath, Plain, ZeroFree, Covers, SameContent;
    LoadedFacts(loaded, corpus, cases, FrozenDigest(frozen, corpus, cases, sha256).value, sha256);
    LoadFindsFrozenFiles(frozen, loaded, corpus, cases, cases, sha256);
    var a, b := FrozenFiles(frozen, corpus, cases, sha256).value, FrozenFiles(loaded, corpus, cases, sha256).value;
    if Framing(a) == Framing(b) {
      CorpusMatches(frozen, loaded, corpus, cases, sha256);
      PlainBothWays(frozen[corpus], loaded[corpus], cases);
      forall c | c in cases && c.body.Some?
        ensures var path := ContentPath(corpus, c.body.value);
                path in frozen && path in loaded && SameContent(frozen[path], loaded[path], sha256)
      {
        var path := ContentPath(corpus, c.body.value);
        BodyFrozen(frozen, corpus, cases, sha256, c);
        BodyFrozen(loaded, corpus, cases, sha256, c);
        BodyCovered(frozen, loaded, corpus, cases, c, sha256);
        BodyCovered(loaded, frozen, corpus, cases, c, sha256);
        SameRegular(frozen[path], loaded[path], sha256);
      }
    }
  }

  lemma LoadedFacts(workspace: Workspace, corpus: string, cases: seq<Case>, expected: string, sha256: string -> string)
    requires Loads(workspace, corpus, cases, expected, sha256)
    ensures FrozenFiles(workspace, corpus, cases, sha256).Some? && workspace[corpus].RegularFile?
  {
    hide FrozenFiles;
  }

  lemma PlainBothWays(x: Entry, y: Entry, cases: seq<Case>)
    requires Plain(x, y, cases)
    ensures Plain(y, x, cases)
  {
  }

  lemma BodyFrozen(workspace: Workspace, corpus: string, cases: seq<Case>, sha256: string -> string, c: Case)
    requires FrozenFiles(workspace, corpus, cases, sha256).Some? && workspace[corpus].RegularFile?
    requires c in cases && c.body.Some?
    ensures ContentPath(corpus, c.body.value) in workspace
  {
    hide Identity, WithBodies, ContentPath;
    BodiesExist(Identity(workspace, corpus, sha256).value, corpus, cases, workspace, sha256, c);
  }

  // ---- Where a body is looked for ----

  lemma {:induction false} ParentOf(directory: string, name: string)
    requires '/' !in name
    ensures Parent(name) == [] && Parent(directory + "/" + name) == directory
    decreases |name|
  {
    var path := directory + "/" + name;
    if name == [] {
      assert path[..|path| - 1] == directory;
    } else {
      var init := name[..|name| - 1];
      assert name[|name| - 1] in name;
      ParentOf(directory, init);
      assert path[..|path| - 1] == directory + "/" + init && path[|path| - 1] == name[|name| - 1];
    }
  }

  /** A body reference is resolved next to the corpus; the content is then read under the same
      path with its backslashes turned into slashes. */
  lemma BodyLocation(directory: string, name: string, reference: string)
    requires directory != [] && '/' !in name
    ensures WrittenPath(directory + "/" + name, reference) == directory + "/" + reference
    ensures WrittenPath(name, reference) == reference
    ensures '\\' !in directory && '\\' !in reference ==>
              ContentPath(directory + "/" + name, reference) == directory + "/" + reference
  {
    ParentOf(directory, name);
    var path := directory + "/" + reference;
    if '\\' !in directory && '\\' !in reference {
      forall i | 0 <= i < |path|
        ensures Slashed(path)[i] == path[i]
      {
        assert path[i] in path;
      }
    }
  }

  // ---- Digests in another letter case ----

  /** The lower-case form, character by character. */
  function Lowered(s: string): (r: string) {
    seq(|s|, i requires 0 <= i < |s| => if 65 <= s[i] as int <= 90 then (s[i] as int + 32) as char else s[i])
  }

  /** An expected digest loads exactly when its lower-case form is the digest of the content. */
  lemma LoadsAnyCase(workspace: Workspace, corpus: string, cases: seq<Case>, expected: string,
                     sha256: string -> string)
    requires DigestText(sha256)
    ensures Loads(workspace, corpus, cases, expected, sha256)
       <==> && corpus in workspace && workspace[corpus].RegularFile?
            && (forall c :: c in cases ==> BodyIsRegular(workspace, corpus, c))
            && FrozenDigest(workspace, corpus, cases, sha256) == Some(Lowered(expected))
  {
    hide BodyIsRegular, FrozenFiles, Framing;
    var digest := FrozenDigest(workspace, corpus, cases, sha256);
    if digest.Some? {
      SameUpToCase(digest.value, expected);
    }
  }

  lemma SameUpToCase(digest: string, expected: string)
    requires forall c :: c in digest ==> LowerCase(c) == c
    ensures EqualIgnoringCase(digest, expected) <==> digest == Lowered(expected)
  {
    assert forall i :: 0 <= i < |digest| ==> digest[i] in digest;
    assert forall i :: 0 <= i < |expected| ==> Lowered(expected)[i] == LowerCase(expected[i]);
  }

  // ---- The aggregate limits ----

  lemma {:induction false} TotalConcat(a: seq<FileIdentity>, b: seq<FileIdentity>)
    ensures TotalLength(a + b) == TotalLength(a) + TotalLength(b)
    decreases |b|
  {
    if b == [] {
      assert a + b == a;
    } else {
      TotalConcat(a, b[..|b| - 1]);
      assert a + b == (a + b[..|b| - 1]) + [b[|b| - 1]];
      TotalSnoc(a + b[..|b| - 1], b[|b| - 1]);
    }
  }

  lemma {:induction false} TotalPrefixed(id: string, files: seq<FileIdentity>)
    ensures TotalLength(Prefixed(id, files)) == TotalLength(files)
    decreases |files|
  {
    if files != [] {
      var n := |files| - 1;
      TotalPrefixed(id, files[..n]);
      TotalSnoc(Prefixed(id, files[..n]), files[n].(path := "body/" + id + "/" + files[n].path));
    }
  }

  lemma {:induction false} TotalInsert(x: FileIdentity, files: seq<FileIdentity>)
    ensures TotalLength(InsertBy(x, files, PathOf)) == x.length + TotalLength(files)
    decreases |files|
  {
    hide NameLess;
    TotalConcat([x], files);
    TotalSnoc([], x);
    assert [] + [x] == [x];
    if files != [] && !NameLess(PathOf(x), PathOf(files[0])) {
      TotalInsert(x, files[1..]);
      TotalConcat([files[0]], InsertBy(x, files[1..], PathOf));
      TotalConcat([files[0]], files[1..]);
      assert [files[0]] + files[1..] == files;
    }
  }

  lemma {:induction false} TotalSorted(files: seq<FileIdentity>)
    ensures TotalLength(SortFiles(files)) == TotalLength(files)
    decreases |files|
  {
    if files != [] {
      var n := |files| - 1;
      TotalSorted(files[..n]);
      TotalInsert(files[n], SortFiles(files[..n]));
    }
  }

  lemma IdentityTotal(workspace: Workspace, path: string, sha256: string -> string)
    requires Identity(workspace, path, sha256).Some?
    ensures var tree := Identity(workspace, path, sha256).value; tree.totalBytes == TotalLength(tree.files)
  {
    hide TotalLength, SortFiles, Walk;
    match workspace[path]
    case RegularFile(name, content) => TotalSorted([IdentityOf(name, content, sha256)]);
    case Folder(listing) => TotalSorted(Walk("", listing, sha256));
  }

  lemma {:induction false} BodiesTotal(tree: TreeIdentity, corpus: string, cases: seq<Case>, workspace: Workspace,
                                       sha256: string -> string)
    requires WithBodies(tree, corpus, cases, workspace, sha256).Some? && tree.totalBytes == TotalLength(tree.files)
    ensures var whole := WithBodies(tree, corpus, cases, workspace, sha256).value;
            whole.totalBytes == TotalLength(whole.files)
    decreases |cases|
  {
    hide Identity, ContentPath, Prefixed, TotalLength;
    if cases != [] {
      var next := tree;
      if cases[0].body.Some? {
        var path := ContentPath(corpus, cases[0].body.value);
        var body := Identity(workspace, path, sha256).value;
        IdentityTotal(workspace, path, sha256);
        TotalPrefixed(cases[0].id, body.files);
        TotalConcat(tree.files, Prefixed(cases[0].id, body.files));
        next := Extended(tree, cases[0].id, body);
      }
      BodiesTotal(next, corpus, cases[1..], workspace, sha256);
    }
  }

  /** What is frozen is within the limits on files and on their lengths taken together. */
  lemma FrozenWithinLimits(workspace: Workspace, corpus: string, cases: seq<Case>, sha256: string -> string)
    requires FrozenFiles(workspace, corpus, cases, sha256).Some? && workspace[corpus].RegularFile?
    ensures var files := FrozenFiles(workspace, corpus, cases, sha256).value;
            |files| <= MAX_FILES && TotalLength(files) <= MAX_TOTAL_BYTES
  {
    hide Identity, WithBodies, TotalLength, SortFiles;
    var tree := Identity(workspace, corpus, sha256).value;
    var whole := WithBodies(tree, corpus, cases, workspace, sha256).value;
    IdentityTotal(workspace, corpus, sha256);
    BodiesTotal(tree, corpus, cases, workspace, sha256);
    TotalSorted(whole.files);
    SortedLength(whole.files);
  }

  lemma SortedLength(files: seq<FileIdentity>)
    ensures |SortFiles(files)| == |files|
  {
  }
}
